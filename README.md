# Hugo fix-note selector, modelled in Dafny

The program concatenates markdown "fix notes" named after Hugo versions
(`v0.120.3.md`, ...), keeping those inside an optional inclusive
`--low`/`--high` version range, in ascending version order, behind a generated
header. This project models the whole of that logic in `main.go`:

- `parseVersion`: strip one leading `v`, then `fmt.Sscanf(s, "%d.%d.%d")`. Modelled in
  `semver.dfy` as a small scanner (`ScanInt`, `ScanLiteral`, `ScanTriple`) over strings.
- `compareSemver`: the difference of the first differing component (`Semver.CompareSemver`).
- `versionedFile` and its `String` method `v%d.%d.%d` (`Fixes.VersionedFile`).
- The body of `main`. This covers: the bound flags (`Fixes.ParseBounds`); the filter loop over the
  directory listing (`Fixes.Classify` is one pass, `Fixes.CollectFiles` the
  loop, `Fixes.Selected` its specification); the fatal empty check; the
  in-place sort (`Fixes.SortFiles`, an insertion sort on an `array`); the
  header (`Fixes.Header`); and the output loop (`Fixes.WriteFiles`). `Fixes.Run` puts
  these together.

The directory listing is a sequence of `Entry(name, isDir)`. The note
contents are a `map` from file name to text. Each fatal exit of the program
is an `Error` value: `InvalidLow`, `InvalidHigh`, `NoFixFiles` or `ReadFailed`.

Three points of the code's behaviour are easy to miss. The model follows the code:

- Text after the third number is not examined beyond the one character that ends it.
  `1.2.3.4` reads as 1.2.3, and so do `0.1.0-foo` and `1.2.3_x`
  (`FixesExamples.FourPartsAccepted`, `FixesExamples.SuffixAccepted`,
  `Semver.ParseVersionAcceptsUnderscore`), because `fmt.Sscanf` stops after the last
  conversion of its format, and `%d` reads only the digits 0-9.
- `sort.Slice` is not stable, so the order of two notes with equal versions is
  unspecified. Only sortedness and permutation are stated, plus the fact that the
  header does not depend on how equal versions are ordered (`Fixes.HeaderDeterministic`).
- Names that do not parse are skipped inside the same loop that applies the range,
  with no message.

Files: `wrappers.dfy` (Option/Result), `strings.dfy` (`strings.TrimPrefix`,
`strings.TrimSuffix`, `filepath.Ext`), `semver.dfy`, `fixes.dfy`,
`samples.dfy` (concrete instances).

## Model

| member | source | states |
|---|---|---|
| `Strings.TrimPrefix` | main.go:98 | one leading prefix is removed when present and the text is unchanged otherwise |
| `Strings.TrimSuffix` | main.go:54 | one trailing suffix is removed when present and the text is unchanged otherwise |
| `Strings.Ext` | main.go:51 | the result is empty or starts with '.', is a suffix of the path and holds no further '.' or '/'; it is empty only when every '.' of the path lies before a '/' (the final element has no '.') |
| `Strings.ExtIsMd` | main.go:51 | `filepath.Ext(name) == ".md"` holds exactly when the name ends in ".md" |
| `Semver.DecimalString` | main.go:123 | `%d` of a natural number is a non-empty digit string with no leading zero, and its decimal value is the number |
| `Semver.ParseVersion` | main.go:97-105 | on failure the zero triple comes back with the error "invalid semver: " plus the stripped text |
| `Semver.ScanIntConsumes` | main.go:100 | one `%d` succeeds exactly when the text starts with a digit; it then consumes a run of digits that the remaining text does not continue, and returns that run's decimal value |
| `Semver.ScanTripleOf` | main.go:100-101 | three conversions succeed on digits "." digits "." digits followed by nothing or a non-digit, and return the three decimal values |
| `Semver.ScanTripleShape` | main.go:100-101 | whenever three conversions succeed, the text has that shape and the values are those of its digit strings |
| `Semver.ParseVersionSucceedsIff` | main.go:97-105 | parsing succeeds exactly when, after one "v" is stripped, the text is digits "." digits "." digits followed by nothing or a non-digit |
| `Semver.ParseVersionAccepts` | main.go:98-104 | on such text the result is the triple of the three decimal values, with no error |
| `Semver.ParseVersionRoundTrip` | main.go:97-105 | the printed form of any triple parses back to it, with or without the leading "v", and with any trailing text that does not start with a digit |
| `Semver.ParseVersionOptionalV` | main.go:98 | one "v" before text that does not start with "v" does not change the result |
| `Semver.ParseVersionRejectsNoDigits` | main.go:98-103 | "", "abc" and "vv1.2.3" fail (only one "v" is stripped) |
| `Semver.ParseVersionRejectsTwoParts` | main.go:100-103 | "v1.2" fails: fewer than three integers |
| `Semver.ParseVersionRejectsLetter` | main.go:100-103 | "1.2.x" fails: a non-numeric component |
| `Semver.ParseVersionAcceptsUnderscore` | main.go:100-104 | "1.2.3_x" reads as 1.2.3: `%d` stops at the '_' as at any other non-digit |
| `Semver.CompareSemver` | main.go:107-115 | zero exactly on equal triples; negative exactly when the first precedes the second lexicographically on (major, minor, patch); positive exactly when it follows |
| `Semver.CompareAntisymmetric` | main.go:107-115 | swapping the arguments negates the sign |
| `Semver.LessIsStrictTotalOrder` | main.go:107-115 | "less" by comparison is irreflexive, transitive, asymmetric and total |
| `Fixes.VersionedFile.String` | main.go:122-124 | the rendering is "v" followed by the canonical decimal digits of major, minor and patch, separated by dots, in the shape `parseVersion` accepts |
| `Fixes.StringRoundTrip` | main.go:122-124 | `String`, followed by any text that does not start with a digit, parses back to the file's version |
| `Fixes.StringInjective` | main.go:122-124 | two files render alike exactly when their versions are equal |
| `Fixes.ParseBounds` | main.go:23-42 | an empty flag leaves that bound absent; an unparseable `--low` is `InvalidLow` and an unparseable `--high` (with a valid or empty low) is `InvalidHigh`; no other failure occurs, so when neither flag fails the result is a success in which each bound is the parsed version |
| `Fixes.Classify` | main.go:50-65 | one pass keeps an entry exactly when it is not a directory, ends in ".md", its stem parses, it is not below low and not above high (both inclusive); the kept file has the entry's name and parsed version |
| `Fixes.CollectFiles` | main.go:49-66 | the loop's result is the in-order selection of the listing |
| `Fixes.SelectedAppend` | main.go:50-65 | each entry is judged on its own: the selection of a concatenated listing is the concatenation of the selections |
| `Fixes.SelectedSingle` | main.go:50-65 | one entry contributes its file exactly when it is admitted |
| `Fixes.SelectedMembers` | main.go:50-65 | a file is selected exactly when some admitted entry of the listing yields it |
| `Fixes.UnboundedAdmitsAllVersioned` | main.go:59-64 | without bounds every regular ".md" entry whose stem parses is kept |
| `Fixes.SelectedMonotonic` | main.go:59-64 | lowering low, raising high or dropping a bound keeps every previously selected file (sub-multiset) |
| `Fixes.SortedIffAscending` | main.go:72-75 | adjacent pairs comparing <= 0 is the same as every earlier file being no later than every later one |
| `Fixes.SortFiles` | main.go:72-75 | after the sort the array is ascending by version and a permutation of what it held |
| `Fixes.InsertFile` | main.go:72-75 | inserting the next file leaves the prefix up to it ascending and a permutation of what it held, and the rest of the array unchanged |
| `Fixes.SwapDownKeepsOrder` | main.go:72-75 | swapping the moving file past a later-versioned neighbour keeps the insertion invariant |
| `Fixes.HeaderText` | main.go:77-84 | the filled template opens with "## Fixes from Hugo ", the first version, " to Hugo " and the last version, and closes with "upgrading to Hugo ", the last version and " in e.g. netlify.toml." |
| `Fixes.Header` | main.go:77-84 | the header opens by naming the first and last sorted files; the text after "## Fixes from Hugo " parses back to the first file's version; it closes naming the last file as the upgrade target |
| `Fixes.AscendingExtremes` | main.go:77-78 | for a sorted selection the first file is the minimum and the last the maximum version |
| `Fixes.HeaderDeterministic` | main.go:72-84 | any two sorted permutations of the same selection give the same header |
| `Fixes.Body` | main.go:87-94 | a successful write had every note's content; a failed one is `ReadFailed` of a name missing from the contents |
| `Fixes.BodySucceedsIff` | main.go:87-94 | writing the notes succeeds exactly when every file's content is available |
| `Fixes.BodyFailure` | main.go:87-91 | a failed write is `ReadFailed` of the first unreadable file in output order |
| `Fixes.BodyPrefixFailure` | main.go:87-91 | once a prefix fails, the later notes change nothing |
| `Fixes.WriteFiles` | main.go:87-94 | the output loop produces exactly `Body` |
| `Fixes.SortedSelection` | main.go:49-75 | collecting then sorting gives an ascending permutation of the selection |
| `Fixes.Run` | main.go:23-94 | flag errors are reported first; an empty selection is `NoFixFiles`; a non-empty selection succeeds exactly when all its notes are readable, fails otherwise with `ReadFailed` of a selected note that is missing, and on success the output is the header of the sorted files followed by their notes |
| `FixesExamples.FourPartsAccepted` | main.go:100-104 | "1.2.3.4" parses as 1.2.3 |
| `FixesExamples.SuffixAccepted` | main.go:98-104 | "v0.1.0-foo" parses as 0.1.0 |
| `FixesExamples.NamedAfter` | main.go:50-65 | an entry named after a version's rendering plus ".md" is selected exactly when the version is within the bounds |
| `FixesExamples.SelectionExample` | main.go:50-65 | notes v0.110.0, v0.120.3 and v0.156.0 with range [v0.111.0, v0.150.0] select only v0.120.3 |
| `FixesExamples.SortedPair` | main.go:72-75 | two files of different versions have a single sorted order |
| `FixesExamples.OrderExample` | main.go:72-75 | notes v0.110.0 and v0.120.3 without bounds sort as [v0.110.0, v0.120.3] |
| `FixesExamples.OrderExampleHeader` | main.go:77-84 | and the header then reads "from v0.110.0 to v0.120.3" |

## Left out

- The embedded asset table, `fs.ReadDir` and `fs.ReadFile` are foreign I/O. The listing is an input sequence, in whatever order it is supplied. The note contents are an input map keyed by file name, in place of the path "fixes/" + name.
- Flag parsing by the `flag` package is left out. `Run` receives the two flag strings.
- `log.Fatal`/`log.Fatalf` become `Error` values. The diagnostic texts and the exit status are not modelled. `InvalidLow`/`InvalidHigh` carry only the raw flag value.
- Stdout writes become one output string. When a note cannot be read, the program has already written the header and the earlier notes before it exits. The model returns only the error.
- Sscanf's `%d` is restricted to unsigned numbers. Leading spaces, `+`/`-` signs and the 64-bit out-of-range error are not modelled, so every version component is a natural number.
- `compareSemver` uses mathematical integers. Overflow of Go `int` subtraction is not modelled, and only the sign is relied on.
- The `sort.Slice` algorithm (pattern-defeating quicksort) is replaced by an insertion sort. The model states sortedness and permutation, not how equal versions end up ordered.
- `filepath.Ext` is modelled with '/' as the only separator (Unix). Directory entry names contain no separator anyway.
- Fixes.Run: on `ReadFailed` it states only that the name belongs to a selected file missing from the contents. `BodyFailure` states that it is the first such file in the sorted order.
