# Port resolver of `ports`, modelled in Dafny

`ports` is a command-line tool that reads docker-compose files and suggests
free host ports. Its core, `Handler.Ports` in `pkg/composeFile/compose.go`,
runs four stages over the loaded compose documents:

1. **Extraction** (`occupiedPortRanges`): every element of every service's
   `ports` list, as text; a `ports` value that is not a list fails the run
   with "no ports".
2. **Normalization** (`hostPorts`, `currentHostPorts`): the host part of each
   short-syntax entry (`"8080:80"`, `"127.0.0.1:8080:80"`, `"3000-3002:3000-3002"`)
   becomes a set of occupied host ports, kept in a Go `map[int64]struct{}`.
3. **Gap resolution** (`nextAvailablePorts`): the occupied ports are sorted and
   the port after the last one of every maximal run of consecutive ports is a
   candidate.
4. **Filtering** (`filterPorts`): only when a `--port` value was given, it is
   turned into a regular expression (a digit stands for itself, any other
   character for `[0-9]+`) and the candidates whose decimal text it matches
   somewhere are kept.

The model follows the code's own shape: each Go function is a Dafny `method`
with the same loops, proved against a ghost specification function, and the
properties the tool promises are lemmas about those functions.

| file | module | what it holds |
|---|---|---|
| `Wrappers.dfy` | `Wrappers` | `Option` and `Result` |
| `ComposeFile.dfy` | `ComposeFile` | loaded documents, settings values, the two errors |
| `Strconv.dfy` | `Strconv` | `strconv.ParseInt(s, 10, 64)` and `strconv.FormatInt(p, 10)` on ASCII decimal text |
| `Strings.dfy` | `Strings` | `strings.Split` for a one-character separator, with `Join` as its inverse |
| `Extraction.dfy` | `Extraction` | `occupiedPortRanges` |
| `Normalization.dfy` | `Normalization` | `hostPorts`, `currentHostPorts`, nil maps and panics |
| `GapResolution.dfy` | `GapResolution` | `nextAvailablePorts`, with `sort.Slice` as a pure sort |
| `Filtering.dfy` | `Filtering` | `filterPorts`, the generated expression as tokens |
| `Handler.dfy` | `Handler` | `Handler.Ports` after the documents are loaded |

Modelling choices:

- A Go map of ports is `PortMap = Nil | Live(set<int>)`. `currentHostPorts`
  writes into the caller's map in place, and the caller always takes back the
  returned map, so a value is enough. A nil map is kept because the code
  returns one on a parse error. The next write into that nil map is a run-time
  panic, modelled as the `Panic` outcome.
- Go map iteration order is unspecified. `occupiedPortRanges` and the key loop
  of `nextAvailablePorts` pick any remaining key in each step (`:|`). The
  result of `occupiedPortRanges` is specified as a visit (`Extraction.IsVisit`):
  the documents in slice order, each `ports` list in list order as one block,
  and only the services of a document in some order (`Extraction.IsOrder`).
  The keys of `nextAvailablePorts` are specified as the set they list.
- The YAML scalar type is a type parameter `S`. `fmt.Sprintf("%v", x)` is a
  function `show: S -> string` given by the caller.
- The regular expression is a sequence of tokens, `Lit(digit)` or `AnyDigits`.
  `MatchString` holds when the tokens match all of some substring: a literal
  matches one equal character, `AnyDigits` matches one or more ASCII digits.
- Integers are unbounded.

Behaviour of the code that the model keeps as written:

- An unparsable host port is not fatal. `currentHostPorts` returns a nil map
  and the error; `hostPorts` overwrites the error on each call and `Ports`
  never reads it. So the run lists the candidates of the map that is left
  (none, for a nil map), or it panics when a later entry writes into the nil
  map (`Normalization.TrailingFailure`, `Normalization.FailureThenWritePanics`,
  `Handler.BadThenGoodPanics`).
- A range `A-B` with `A > B` adds nothing: the loop never runs
  (`Normalization.ReversedRangeEmpty`).
- The generated expression holds only digits and `[0-9]+`, so it always
  compiles; the error `regexp.Compile` would return is ignored by the code and
  has no counterpart in the model.

## Model

| member | source | states |
|---|---|---|
| Extraction.BadPorts | pkg/composeFile/compose.go:121-124 | defines a service that fails the run: its `ports` field is present but not a list |
| Extraction.ListsOnly | pkg/composeFile/compose.go:120-124 | defines a document no service of which fails the run |
| Extraction.Malformed | pkg/composeFile/compose.go:119-124 | defines the inputs that fail with "no ports": some document has a service whose `ports` field is not a list |
| Extraction.ServicesEntries | pkg/composeFile/compose.go:120-130 | defines the entries a document contributes, as a multiset: every service's list, services taken in some order |
| Extraction.Declared | pkg/composeFile/compose.go:117-133 | defines every entry of every document, as a multiset |
| Extraction.ServiceEntries | pkg/composeFile/compose.go:121-128 | defines the text of every element of one service's `ports` list, in list order; none when the field is absent |
| Extraction.IsOrder | pkg/composeFile/compose.go:120 | defines an order to visit a document's services in: each service named exactly once |
| Extraction.Visited | pkg/composeFile/compose.go:120-130 | defines what visiting the services in a given order appends: each service's entries as one block, the blocks in that order |
| Extraction.VisitedAll | pkg/composeFile/compose.go:119-131 | defines what visiting all documents appends: the documents in slice order, each one's services in its given order |
| Extraction.IsVisit | pkg/composeFile/compose.go:117-133 | defines the results `occupiedPortRanges` can produce: a `VisitedAll` for some order of each document's services |
| Extraction.AppendEntries | pkg/composeFile/compose.go:126-128 | appends the text of every element of one `ports` list, in list order, after what was already collected |
| Extraction.OccupiedPortRanges | pkg/composeFile/compose.go:117-133 | fails, with "no ports", exactly when some service of some document has a `ports` value that is not a list; otherwise the result is a visit: documents in slice order, each `ports` list in list order, only the services of a document in some order; it holds every declared entry once per occurrence |
| Extraction.AppendServicePorts | pkg/composeFile/compose.go:120-130 | visiting one document's services in any map order: fails exactly when a `ports` value is not a list; otherwise it keeps what was collected and appends each service's list as one in-order block, the services in some order |
| Extraction.VisitedEntries | pkg/composeFile/compose.go:120-130 | visiting a document's services in any order appends exactly the entries of all its services |
| Extraction.VisitDeclared | pkg/composeFile/compose.go:119-131 | any visit of the documents holds every declared entry, once per occurrence |
| Extraction.SingleServiceVisit | pkg/composeFile/compose.go:119-128 | a single document with a single service yields that service's `ports` list in list order and nothing else |
| Extraction.ServicesEntriesAnyFirst | pkg/composeFile/compose.go:120 | the entries of a document do not depend on which service the map yields first |
| Extraction.NoPortsField | pkg/composeFile/compose.go:121 | a service without a `ports` field contributes no entry and causes no error |
| Normalization.KeysOf | pkg/composeFile/compose.go:79 | defines the keys a range over the map visits: none for a nil map, the ports of a live one |
| Normalization.HostField | pkg/composeFile/compose.go:102-111 | defines the host field of an entry: none without ':'; after splitting on ':', field 0 of two fields, field 1 of three, none otherwise |
| Normalization.Interval | pkg/composeFile/compose.go:164-166 | defines the ports from a start to an end, inclusive; none when the start is above the end |
| Normalization.HostSpecPorts | pkg/composeFile/compose.go:154-174 | defines the ports a host field names: with '-', the interval between the parses of the first two pieces (InvalidPortNumber if either fails); else the parse of a non-empty field, or none for an empty field |
| Normalization.HostStep | pkg/composeFile/compose.go:152-175 | defines one call of `currentHostPorts`: a nil map and the error on a parse failure; otherwise the named ports added to a live map, a nil map kept when nothing is named, and a panic when a port is written into a nil map |
| Normalization.EntryPorts | pkg/composeFile/compose.go:101-112 | defines the ports one entry occupies: those its host field names, none without a host field or when it does not parse |
| Normalization.OccupiedBy | pkg/composeFile/compose.go:99-115 | defines the ports a collection of entries occupies: the union of each entry's ports |
| Normalization.HostFold | pkg/composeFile/compose.go:99-115 | defines `hostPorts` on a list of entries: entries without a host field are skipped, each other one applies `HostStep`, whose map and error replace the current ones, and a panic ends the run |
| Normalization.HostFieldTwoFields | pkg/composeFile/compose.go:103-106 | in `"host:container"` the host field is the first field |
| Normalization.HostFieldThreeFields | pkg/composeFile/compose.go:103-110 | in `"ip:host:container"` the host field is the middle field |
| Normalization.HostFieldColons | pkg/composeFile/compose.go:102-112 | an entry has a host field exactly when it holds one or two ':'; the host field is then the field before the last ':' |
| Normalization.NoHostFieldNoPorts | pkg/composeFile/compose.go:102-112 | an entry without a host field (no ':', or three or more ':') occupies no port |
| Normalization.IntervalMembers | pkg/composeFile/compose.go:164-166 | the ports the range loop writes are exactly those from the start to the end, inclusive |
| Normalization.SinglePort | pkg/composeFile/compose.go:167-172 | a host field without '-' that parses to n occupies exactly port n |
| Normalization.SinglePortPrinted | pkg/composeFile/compose.go:167-172 | the decimal text of any natural n, as a host field, occupies exactly port n |
| Normalization.EmptyHostField | pkg/composeFile/compose.go:167-174 | an empty host field, as in ":80", occupies nothing and gives no error |
| Normalization.NotANumber | pkg/composeFile/compose.go:168-170 | a non-empty host field without '-' that does not parse gives InvalidPortNumber naming the whole field |
| Normalization.NotANumberExample | pkg/composeFile/compose.go:168-170 | "abc" gives InvalidPortNumber("abc") |
| Normalization.RangePorts | pkg/composeFile/compose.go:154-166 | "A-B" occupies exactly the ports p with A <= p <= B |
| Normalization.ReversedRangeEmpty | pkg/composeFile/compose.go:164-166 | "A-B" with A > B occupies nothing and gives no error |
| Normalization.RangeBounds | pkg/composeFile/compose.go:155-160 | the bounds read from "A-B-rest" are A and B |
| Normalization.RangeIgnoresRest | pkg/composeFile/compose.go:155-166 | only the first two '-' pieces count: "A-B-rest" occupies what "A-B" does |
| Normalization.RangeMissingBound | pkg/composeFile/compose.go:160-162 | a range without an upper bound, such as "3000-", is an error |
| Normalization.CurrentHostPorts | pkg/composeFile/compose.go:152-175 | the result is `HostStep`: a parse error gives a nil map and InvalidPortNumber before any write; otherwise the named ports are added to a live map, and writing into a nil map panics |
| Normalization.LiveStep | pkg/composeFile/compose.go:152-175 | on a live map it never panics; it fails, leaving a nil map, exactly when the host field does not parse; otherwise every port present before stays, the named ports are all present, and no other port is added |
| Normalization.NilStep | pkg/composeFile/compose.go:164-172 | on a nil map it panics exactly when the host field parses and names at least one port; otherwise the map stays nil |
| Normalization.AddPresentPorts | pkg/composeFile/compose.go:164-172 | adding ports that are all present leaves the map unchanged |
| Normalization.StepIdempotent | pkg/composeFile/compose.go:152-175 | applying the same host field twice gives what applying it once gives |
| Normalization.StepCommutes | pkg/composeFile/compose.go:101-113 | two host fields that parse can be applied in either order |
| Normalization.HostPorts | pkg/composeFile/compose.go:99-115 | the result is `HostFold` from an empty map: each entry with a host field goes through `currentHostPorts`, whose map and error replace the current ones; a panic ends the run |
| Normalization.OccupiedByAdd | pkg/composeFile/compose.go:101-113 | one more entry adds exactly the ports it occupies |
| Normalization.WellFormedFold | pkg/composeFile/compose.go:99-115 | when every host field parses, `hostPorts` does not panic, the map holds exactly the ports the entries occupy, and the error is nil when any entry had a host field and the one passed in otherwise |
| Normalization.HostPortsOrderFree | pkg/composeFile/compose.go:99-115 | when every host field parses, the order of the entries does not change the result |
| Normalization.DuplicateEntry | pkg/composeFile/compose.go:101-113 | a repeated entry adds no port |
| Normalization.HostSpecNonNegative | pkg/composeFile/compose.go:154-172 | every port a host field names is a natural number |
| Normalization.OccupiedNonNegative | pkg/composeFile/compose.go:99-115 | every occupied port is a natural number |
| Normalization.ParseExample | pkg/composeFile/compose.go:168 | "8080" parses to 8080 |
| Normalization.BadEntryExample | pkg/composeFile/compose.go:103-106 | "abc:80" has host field "abc", which is an InvalidPortNumber error |
| Normalization.GoodEntryExample | pkg/composeFile/compose.go:103-106 | "8080:80" has host field "8080", which occupies exactly port 8080 |
| Normalization.NilThenWritePanics | pkg/composeFile/compose.go:164-172 | once the map is nil, the first later entry that names a port panics, whatever port-free entries come between |
| Normalization.HostFoldConcat | pkg/composeFile/compose.go:101-113 | running `hostPorts` over two runs of entries is running it over the first and then over the second from where it stopped |
| Normalization.TrailingFailure | pkg/composeFile/compose.go:106-114 | when the very last entry has a host field that does not parse and the entries before it did not panic, `hostPorts` returns a nil map and that entry's error |
| Normalization.FailureThenWritePanics | pkg/composeFile/compose.go:101-113 | an entry that does not parse, followed by one that names a port with only port-free entries between, makes `hostPorts` panic |
| GapResolution.IsNextPort | pkg/composeFile/compose.go:86-95 | defines a candidate: a free port whose predecessor is occupied |
| GapResolution.IsRunEndAt | pkg/composeFile/compose.go:88-93 | defines the keys the scan emits for: the last key, or one whose successor is not the next key |
| GapResolution.Emitted | pkg/composeFile/compose.go:86-95 | defines what the scan has emitted after the first i sorted keys: the successor of each key that ends a run of consecutive keys |
| GapResolution.Keys | pkg/composeFile/compose.go:78-81 | the slice holds every key of the map exactly once, in some order |
| GapResolution.SortAscending | pkg/composeFile/compose.go:82-84 | the sorted slice is ascending and a permutation of its input |
| GapResolution.SortedKeys | pkg/composeFile/compose.go:78-84 | the sorted keys rise strictly and have the same members and the same count as the map |
| GapResolution.RunEnd | pkg/composeFile/compose.go:88-93 | the port after a key the scan emits for is not in the map |
| GapResolution.EmittedAscending | pkg/composeFile/compose.go:86-95 | what the scan emits rises strictly and is no longer than the keys seen |
| GapResolution.EmittedSound | pkg/composeFile/compose.go:86-95 | every emitted port is free, and its predecessor is occupied |
| GapResolution.EmittedComplete | pkg/composeFile/compose.go:86-95 | every key seen whose successor is free has that successor emitted |
| GapResolution.RunEndsAreNextPorts | pkg/composeFile/compose.go:86-95 | sound and complete emission means the output holds exactly the next ports of the map |
| GapResolution.ScanOfSortedKeys | pkg/composeFile/compose.go:86-96 | scanning the sorted keys emits exactly the next ports, strictly ascending, no more of them than the keys |
| GapResolution.NextAvailablePorts | pkg/composeFile/compose.go:77-97 | the result rises strictly, holds exactly the ports c with c - 1 occupied and c free, is no longer than the map, and is empty for an empty map |
| GapResolution.StrictlyAscendingUnique | pkg/composeFile/compose.go:86-96 | a strictly ascending list is fixed by its members, so there is one candidate per run and the result is determined |
| GapResolution.NextPortsExample | pkg/composeFile/compose.go:77-97 | for occupied ports {8080, 8081, 8082, 9090}, the strictly ascending list of exactly the next ports is [8083, 9091] |
| GapResolution.NextPortsPositive | pkg/composeFile/compose.go:89-93 | when no occupied port is negative, every candidate is at least 1 |
| Filtering.TokenOf | pkg/composeFile/compose.go:61-65 | defines the token one character of the --port value becomes: itself for a digit, `[0-9]+` otherwise |
| Filtering.Pattern | pkg/composeFile/compose.go:59-66 | defines the expression built from the --port value, one token per character |
| Filtering.FullMatch | pkg/composeFile/compose.go:67-70 | defines a match of a whole text: a literal matches its digit, `[0-9]+` one or more digits, tokens in order |
| Filtering.MatchString | pkg/composeFile/compose.go:67-70 | defines `regexp.MatchString` for these expressions: some substring of the text matches in full |
| Filtering.Kept | pkg/composeFile/compose.go:68-74 | defines the filter's result: the candidates, in their order, whose decimal text the expression matches |
| Filtering.FilterPorts | pkg/composeFile/compose.go:58-75 | the result is `Kept`: the candidates, in their order, whose decimal text the expression built from the --port value matches somewhere |
| Filtering.KeptMembers | pkg/composeFile/compose.go:69-73 | a port is kept exactly when it is a candidate and its decimal text matches |
| Filtering.KeptSubsequence | pkg/composeFile/compose.go:68-74 | the kept ports are a subsequence of the candidates: some left out, none reordered |
| Filtering.SubsequenceMembers | pkg/composeFile/compose.go:68-74 | every port of a subsequence of the candidates is a candidate |
| Filtering.SubsequenceAscending | pkg/composeFile/compose.go:68-74 | a subsequence of a strictly ascending list rises strictly |
| Filtering.KeptAscending | pkg/composeFile/compose.go:68-74 | filtering strictly ascending candidates gives strictly ascending ports |
| Filtering.KeptIdempotent | pkg/composeFile/compose.go:68-74 | filtering twice with the same expression is filtering once |
| Filtering.EmptyMatchesAll | pkg/composeFile/compose.go:67-70 | the empty expression matches every text |
| Filtering.EmptyPatternKeepsAll | pkg/composeFile/compose.go:68-74 | the empty expression keeps every candidate |
| Filtering.EmptyPortKeepsAll | pkg/composeFile/compose.go:50-55 | an empty --port value would keep every candidate, so skipping the filter for it changes nothing |
| Filtering.PatternGrows | pkg/composeFile/compose.go:60-65 | each character of the --port value appends one token: a literal for a digit, `[0-9]+` otherwise |
| Filtering.LiteralFullMatch | pkg/composeFile/compose.go:60-62 | the expression of an all-digit --port value matches, in full, only that text |
| Filtering.LiteralPattern | pkg/composeFile/compose.go:60-70 | an all-digit --port value keeps exactly the candidates whose decimal text contains it |
| Filtering.WildcardFullMatch | pkg/composeFile/compose.go:63-65 | for n >= 1, n wildcards match, in full, exactly the runs of at least n digits |
| Filtering.WildcardPattern | pkg/composeFile/compose.go:63-70 | a non-empty --port value of n non-digits keeps exactly the natural candidates of at least n digits |
| Filtering.LiteralOccurs | pkg/composeFile/compose.go:60-62 | a literal of the expression occurs in any text the expression matches in full |
| Filtering.LiteralDigitsRequired | pkg/composeFile/compose.go:60-70 | a kept port's decimal text contains every digit written in the --port value |
| Filtering.FormatExamples | pkg/composeFile/compose.go:70 | the decimal text of 8001, 8050 and 9050 |
| Filtering.EightyMatches | pkg/composeFile/compose.go:60-70 | "80xx" matches "80" followed by any two digits |
| Filtering.NoEightyIn9050 | pkg/composeFile/compose.go:60-70 | "80xx" does not match "9050" |
| Filtering.FilterExample | pkg/composeFile/compose.go:58-75 | "80xx" keeps 8001 and 8050 out of 8001, 8050 and 9050 |
| Handler.ResolvedFrom | pkg/composeFile/compose.go:47-55 | defines the outcome once the entries are extracted: `hostPorts` from an empty map with its error dropped; a panic if it panics; otherwise the strictly ascending next ports of the map left (none for a nil map), kept when `Wanted` |
| Handler.Wanted | pkg/composeFile/compose.go:50-55 | defines the candidates a run keeps: all of them without a --port value, else those whose decimal text the generated expression matches |
| Handler.Ports | pkg/composeFile/compose.go:33-56 | fails, with "no ports", exactly when a `ports` value is not a list; otherwise the outcome is the one determined by some visit of the entries (`IsVisit`): a panic from `hostPorts`, or the strictly ascending next ports of the map it leaves, filtered only when the --port value is non-empty; with every host field parsing, it lists exactly the wanted next ports of all occupied ports |
| Handler.BadThenGoodPanics | pkg/composeFile/compose.go:41-47 | one service with `ports: ["abc:80", "8080:80"]`: every outcome `Ports` allows is a panic, since "abc" leaves a nil map and 8080 is then written into it |
| Handler.WellFormedHostPorts | pkg/composeFile/compose.go:47-49 | for entries holding exactly the declared ones, with every host field parsing, the map handed to `nextAvailablePorts` holds exactly the occupied ports |
| Handler.FilteredWanted | pkg/composeFile/compose.go:53-55 | filtering strictly ascending candidates by a non-empty --port value keeps, strictly ascending, exactly the candidates it matches |
| Strconv.ParseInt | pkg/composeFile/compose.go:156-168 | defines `strconv.ParseInt(s, 10, 64)` on the texts it sees here: an optional '+', then one or more ASCII digits, giving their value; any other text is an error |
| Strconv.FormatNat | pkg/composeFile/compose.go:70 | the decimal text of a natural: non-empty, all digits, denoting the natural, with no leading '0' unless it is 0 |
| Strconv.FormatInt | pkg/composeFile/compose.go:70 | the decimal text of p: the shortest digits of a natural, '-' exactly for a negative |
| Strconv.ParseFormat | pkg/composeFile/compose.go:168 | parsing the decimal text of any natural gives it back, and that text is canonical |
| Strconv.DigitsValuePositive | pkg/composeFile/compose.go:168 | digits that do not start with '0' denote at least 1 |
| Strconv.FormatParse | pkg/composeFile/compose.go:70 | a canonical decimal token parses to its value, and printing that value gives the token back |
| Strconv.CanonicalParses | pkg/composeFile/compose.go:168 | a canonical token parses to the number its digits denote |
| Strconv.FormatAppend | pkg/composeFile/compose.go:70 | for n >= 1, the decimal text of 10 * n + d is that of n followed by the digit d |
| Strconv.ParsePlusSign | pkg/composeFile/compose.go:168 | a '+' in front of a non-empty text that does not already start with '+' does not change the parse result |
| Strconv.ParseLeadingZero | pkg/composeFile/compose.go:168 | a '0' in front of a non-empty run of digits does not change the parse result |
| Strconv.ZeroValue | pkg/composeFile/compose.go:168 | a '0' in front of digits keeps the text all digits and does not change the number it denotes |
| Strings.Split | pkg/composeFile/compose.go:103 | `strings.Split` on one character: one more field than separators, at least two fields exactly when the separator occurs, and no field holds the separator |
| Strings.JoinSplit | pkg/composeFile/compose.go:103 | joining the fields with the separator restores the text that was split |
| Strings.SplitWithoutSeparator | pkg/composeFile/compose.go:103 | text without the separator splits into itself alone |
| Strings.SplitAfterField | pkg/composeFile/compose.go:103 | a field free of the separator, then the separator, splits off as the first field |
| Strings.SplitJoin | pkg/composeFile/compose.go:155 | splitting joined fields that hold no separator gives the fields back |

## Left out

- `composeContent` (file reads and `yaml.Unmarshal`) is I/O and a foreign library; `Handler.Ports` takes the loaded documents as input.
- `fmt.Sprintf("%v", port)` of a YAML scalar is the caller-supplied function `show`.
- The messages `Ports` formats around the result are presentation only; the model returns the list itself.
- Handler.Ports: the outcome is stated for some order of the services within each document, because Go's map iteration order is unspecified; which order a run takes is not modelled. Documents and `ports` lists keep their order.
- Normalization.HostPortsOrderFree: holds only when every host field parses; with a parse error the order of entries decides between a panic and a nil map, as `TrailingFailure` and `FailureThenWritePanics` state.
- int64 limits are not modelled: `ParseInt` overflow, the range loop that never ends when B is the largest int64, and the wrap-around of `v + 1`.
- The regular expression engine is not modelled; the generated expression is a token sequence matched by `FullMatch` and `MatchString`. The error `regexp.Compile` could return is ignored by the code and cannot occur for these expressions.
- Filtering.TokenOf: `unicode.IsDigit` is modelled as the ASCII digits. A non-ASCII digit such as '٣' becomes `[0-9]+` in the model, which keeps every candidate long enough, but a literal in the code, which keeps nothing. `NoDigits` and `WildcardPattern` likewise count such characters as non-digits.
- `sort.Slice` is the pure function `SortAscending` (an insertion sort), not an in-place sort of the slice.
- GapResolution.Keys and Extraction.AppendServicePorts and Extraction.AppendEntries are loops of `nextAvailablePorts` and `occupiedPortRanges` written as their own methods, so that each proof stays small.
- cmd/ports.go (flags, logging, directory walk, file reads) is not part of this model.
- pkg/directory/directory.go (filesystem walk) is not part of this model.
