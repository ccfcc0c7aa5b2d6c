# SKY-Socks5 proxy collector and validator, modelled in Dafny

SKY-Socks5 is a single Go program (`main.go`) that
1. reads a list of proxy source URLs from `urls.txt` (`loadURLs`),
2. downloads every source in its own goroutine, splits each body into lines,
   appends all of them to a raw list and puts the non-empty ones into a
   deduplicating map under one mutex, then writes the map's keys to
   `unique_proxies.txt`, one per line (`fetchAndSave`),
3. reads `unique_proxies.txt` back line by line, checks every proxy through a
   SOCKS5 request in its own goroutine, collects the ones that pass under a
   mutex while a progress goroutine redraws a 40-cell bar for every finished
   check, and writes the passing proxies to `validated_proxies.txt`
   (`validateProxies`, `printProgress`),
4. runs both stages one after the other (`main`).

This project models the sequential logic under that plumbing and proves what
it guarantees.

| file | module | models |
|---|---|---|
| `wrappers.dfy` | `Wrappers` | `Result` (Go's `(value, error)` returns) |
| `gostrings.dfy` | `GoStrings` | `strings.TrimSpace`, `strings.Split(s, "\n")`, `strings.Join`, `strings.Repeat` |
| `linefile.dfy` | `LineFile` | `bufio.ScanLines`, the scanner loop, and files written as `p + "\n"` per record |
| `storage.dfy` | `Storage` | the three files and whether `os.Create` / `os.Open` succeed |
| `loader.dfy` | `Loader` | `loadURLs` |
| `collector.dfy` | `Collector` | the shared collections as a class, the merge, the map write, `fetchAndSave` |
| `progress.dfy` | `Progress` | `printProgress`'s bar and the progress goroutine's counting loop |
| `validator.dfy` | `Validator` | the checking goroutines and `validateProxies` |
| `pipeline.dfy` | `Pipeline` | `main` without the clocks |

How the environment is represented:
- The network is a parameter. `fetch: (nat, string) -> Fetch` gives the
  outcome of the goroutine started for the k-th URL: `http.Get` failed,
  `io.ReadAll` failed, or a body. Because the goroutine's index is an
  argument, a URL listed twice in `urls.txt` (`loadURLs` does not
  deduplicate) may be answered differently by its two goroutines. `check: string -> bool`
  stands for `checkProxy`, an uninterpreted predicate.
- A file is `Absent` or `Present(content)`. Two flags say whether `os.Create`
  and `os.Open` succeed. Files are returned as new `Disk` values.
- Concurrency is modelled by its serialised effect. The mutex makes every run
  of the collector equal to merging the per-source outcomes one at a time, in
  some order. The model's loop takes any pending outcome (`var f :| f in pending`),
  so its proofs hold for every order, and it returns the order it used. The
  checking goroutines are modelled the same way. The unbuffered progress
  channel hands over one tick per finished check.
- Go's `map[string]bool` (whose values are always `true`) is a `set<string>`.
  Writing it in map order is a loop that takes any remaining key.
- Strings are sequences of characters, one character per rune.

Behaviours of main.go worth knowing, all proved of the model:
- `main` always runs `validateProxies`, whatever `fetchAndSave` did
  (main.go:209-216). When `loadURLs` fails, the validator still works on
  whatever `unique_proxies.txt` held before, and still rewrites
  `validated_proxies.txt` (`Pipeline.Run`). Because the model has one
  `canOpen` flag for all files, this shows only for loads that fail at
  `os.Create` or for lack of valid URLs. A load that fails at `os.Open` also
  stops the validator's own open.
- When `urls.txt` is missing, `loadURLs` creates it empty and returns no URLs
  and no error (main.go:18-25). `fetchAndSave` checks only the error
  (main.go:53), so it still runs with zero sources and rewrites
  `unique_proxies.txt` as an empty file (`Collector.FetchAndSave`, last
  ensures clause). That clause relies on the model's single `canCreate`
  flag: creating `urls.txt` succeeding means creating `unique_proxies.txt`
  succeeds too.
- A body ending in a newline yields a trailing empty piece, and that piece
  counts toward the raw total. So the body
  `"1.1.1.1:1080\n1.1.1.1:1080\n2.2.2.2:1080\n"` gives 4 raw pieces and 2
  distinct proxies (`Collector.OneSourceExample`).
- The validator reads its input with `bufio.ScanLines`, which drops one
  trailing `\r` from each line. So a validated proxy belongs to the unique set
  only up to that one `\r`. It belongs exactly when no member of the set ends
  in `\r` (`Pipeline.ValidatedWithinUnique`). A CRLF source body leaves `\r` on
  its pieces.

## Model

| member | source | states |
|---|---|---|
| `GoStrings.TrimSpaceShape` | main.go:37 | the result is the middle part of the input: only white space (Go's `unicode.IsSpace` set) is removed on either side, and the result neither starts nor ends with white space |
| `GoStrings.TrimSpaceFixed` | main.go:37 | a string that neither starts nor ends with white space is its own trim |
| `GoStrings.TrimSpaceIdempotent` | main.go:37 | trimming an already trimmed string changes nothing |
| `GoStrings.Split` | main.go:80 | a body with k newlines splits into k + 1 pieces (the empty body gives one empty piece, a trailing newline a trailing empty piece), and no piece contains a newline |
| `GoStrings.JoinSplit` | main.go:80 | joining the pieces with newlines rebuilds the body exactly |
| `GoStrings.SplitJoin` | main.go:80 | splitting a newline-join of newline-free pieces gives back those pieces |
| `LineFile.ScanLine` | main.go:35-36 | one `Scan` step on non-empty data consumes at least one character and at most all of the data; when it stops before the end, the last character consumed is a newline; the token holds no newline |
| `LineFile.ScanLineToken` | main.go:35-36 | the step stops at the first newline, or at the end of the data when there is none; the token is the text before that newline (or all of the data) with one trailing `\r` dropped |
| `LineFile.ScanLinesSplit` | main.go:35-37 | for any file content, the scanner yields the file's lines in order: the newline-separated pieces, without the empty piece after a final newline, each with at most one trailing `\r` removed |
| `LineFile.ReadLines` | main.go:144-148 | the scanner loop collects exactly the tokens `bufio.ScanLines` yields over the whole file |
| `LineFile.ScanRender` | main.go:145-148 | reading back a file written as `p + "\n"` per record gives each record, in write order, with at most one trailing `\r` removed |
| `LineFile.RoundTrip` | main.go:145-148 | the reader sees exactly as many lines as were written, and gets the records back unchanged if and only if none ends in `\r` |
| `Loader.NonBlank` | main.go:36-41 | every loaded URL is non-empty, and there are no more URLs than lines |
| `Loader.NonBlankTrimmed` | main.go:37-39 | every loaded URL is non-empty, neither starts nor ends with white space, and is its own trim |
| `Loader.NonBlankAppend` | main.go:36-41 | the filter works line by line, so the file order is kept |
| `Loader.NonBlankMembers` | main.go:37-39 | a URL is loaded if and only if it is the trim of some non-blank line |
| `Loader.NonBlankEmpty` | main.go:43-45 | nothing is loaded if and only if every line is blank |
| `Loader.LoadedEmptyIffMissing` | main.go:18-25 | a successful load gives no URLs if and only if `urls.txt` was missing; otherwise every URL is trimmed and non-empty |
| `Loader.LoadedNoValidIffBlank` | main.go:43-45 | a readable `urls.txt` is rejected with `NoValidUrls` if and only if all of its lines are blank |
| `Loader.LoadUrls` | main.go:16-48 | the scanner loop returns the load result: create error, open error, no valid URLs, or the trimmed non-blank lines. Only a missing file is written, and it is created empty |
| `Collector.UniqueOf` | main.go:84-88 | the deduplicated set never holds the empty string or a string with a newline |
| `Collector.UniqueMembers` | main.go:84-88 | a proxy is in the set if and only if it is a non-empty piece of some fetched body |
| `Collector.UniqueOrderIndependent` | main.go:63-93 | every merge order of the same outcomes gives the same set |
| `Collector.RawOrderIndependent` | main.go:81-82 | every merge order of the same outcomes gives raw lists that are permutations of each other, so the raw count does not depend on the order |
| `Collector.MergeAgain` | main.go:82-88 | merging the same body again leaves the set unchanged while the raw list grows by the body's pieces once more |
| `Collector.RepeatedSourcesIdempotent` | main.go:63-88 | merging the same outcomes twice over gives the same set as merging them once |
| `Collector.FailedSourceNoOp` | main.go:67-78 | a source whose fetch or read failed changes neither the raw list nor the set |
| `Collector.Collection.constructor` | main.go:58-59 | collection starts with an empty raw list, an empty set and nothing merged |
| `Collector.Collection.Merge` | main.go:80-89 | raw list becomes the old list followed by all pieces of the body (empties included); set gains exactly the non-empty pieces; invariant tying both to the merged outcomes is kept |
| `Collector.Collection.Absorb` | main.go:65-92 | one source goroutine: on a failed fetch or read nothing changes, otherwise the merge above |
| `Collector.WriteSet` | main.go:104-106 | the file content lists every key of the set exactly once, in some order, each followed by a newline |
| `Collector.UniqueRoundTrip` | main.go:145-148 | re-reading `unique_proxies.txt` gives exactly as many lines as the set has members, each member with at most one `\r` dropped; with no member ending in `\r` the lines are exactly the set |
| `Collector.FetchAndSave` | main.go:51-111 | a load error writes nothing. Otherwise, whatever the merge and map orders: the file written lists exactly the non-empty pieces of all fetched bodies, and the raw count is the total number of pieces. A create error writes nothing. A missing `urls.txt` leads to an empty `urls.txt` and an empty `unique_proxies.txt` |
| `Collector.OneSourceExample` | main.go:80-88 | one body with a duplicate line and a trailing newline gives 4 raw pieces and 2 distinct proxies |
| `Collector.OneFailingSourceExample` | main.go:67-88 | with one failing source and one source answering a single proxy, the set is that proxy in either merge order |
| `Progress.Block` | main.go:197-199 | the filled-cell count is at most 40: the largest count whose share of the bar does not exceed current/total. It is 40 if and only if current equals total |
| `Progress.Bar` | main.go:200 | the bar has 40 cells; cell i is `#` if and only if (i + 1)/40 of the bar is reached by current/total, `-` otherwise |
| `Progress.BarMonotone` | main.go:196-200 | once filled, a cell stays filled as more checks finish |
| `Progress.BarEnds` | main.go:196-200 | the bar is all `#` after the last check and all `-` before the first |
| `Progress.Consume` | main.go:156-164 | the progress goroutine takes exactly `total` ticks, and its k-th redraw is the bar for k of `total` |
| `Validator.Filter` | main.go:170-172 | every passed proxy passed the check and is one of the input proxies |
| `Validator.FilterCount` | main.go:166-176 | a proxy appears among the passed ones as often as in the input if it passes the check, and never otherwise |
| `Validator.FilterPermutation` | main.go:166-176 | checking the proxies in another order passes the same proxies, each as often |
| `Validator.Validate` | main.go:166-178 | every input proxy completes exactly once, in some order. The valid list holds the passing ones in completion order, so it is a permutation of the passing input proxies. Exactly one tick is sent per proxy |
| `Validator.ValidAreChecked` | main.go:170-172 | every validated proxy is an input proxy that passed the check |
| `Validator.ValidateProxies` | main.go:136-193 | a missing or unopenable input file changes nothing. Otherwise the proxies are the lines of `unique_proxies.txt`, the valid ones are a permutation of those passing the check, and the bar is redrawn once per line. The output file is rewritten with the valid proxies, unless it cannot be created |
| `Validator.SingleFailingProxyExample` | main.go:166-176 | a single proxy that fails the check gives an empty valid list, and the bar ends full at 1 of 1 |
| `Pipeline.ValidatedWithinUnique` | main.go:145-172 | every proxy the validator passes is a member of the collector's set with at most one trailing `\r` removed, and exactly a member when no member ends in `\r` |
| `Pipeline.Run` | main.go:205-219 | `urls.txt` ends as `loadURLs` left it. `unique_proxies.txt` is the collector's listing when it saved, and unchanged otherwise. The validator runs in every case, on that file. When it can open the file, the valid proxies are a permutation of those lines that pass the check; with the collector saved, those are the listing read back, so they are members of the set up to one trailing `\r`. `validated_proxies.txt` is rewritten with the valid proxies, even after a failed load, unless the input cannot be opened or the output cannot be created; then it is unchanged |

## Left out

- Network: `http.Get` and the SOCKS5 `http.Client` with its 10-second timeout in `checkProxy` (main.go:67, 114-133). They are the parameters `fetch` and `check`. Why a check fails (bad address, refused connection, timeout, non-200 status) is not modelled.
- `http.Get` at main.go:67 uses the default client, which has no timeout: a source that never answers keeps its goroutine, and so `wg.Wait`, blocked for ever. The model assumes every fetch returns an outcome.
- `checkProxy` is the predicate `check: string -> bool`, so every copy of the same line gets the same verdict. In the program each copy is checked by its own goroutine over the network, and two checks of the same proxy can disagree. Duplicate lines do occur: members `x` and `x\r` of the set both read back as `x`, and a hand-edited `unique_proxies.txt` may repeat a line. `Validator.FilterCount` and `Validator.Validate` rely on the single verdict.
- File system calls (`os.Stat`, `os.Create`, `os.Open`, `WriteString`, `Close`). They are the `Disk` value and its two success flags, with one `canCreate` and one `canOpen` for every file for the whole run. A `Stat` error other than "does not exist" is not distinguished: it ends in the open error, as it does in the code. Errors from `WriteString` are ignored by the program and are not modelled.
- Goroutines, `sync.WaitGroup`, `sync.Mutex` and the progress channel as concurrency. Only their serialised effect is modelled: one merge or completion at a time, in any order, and one tick per finished check.
- The progress goroutine is not awaited by `validateProxies`. Its last redraw may be printed after the closing messages. Output interleaving is not modelled.
- All `fmt.Print*` output, the percentage with `%.2f`, and the elapsed-time reports in `main` (main.go:201, 205-219).
- `Progress.Block`: the source computes `int(40.0 * (float64(current) / float64(total)))` in floating point; the model uses the exact `(40 * current) / total`. Floating point is not modelled, but the two agree for every `total` below 10^14. When `40 * current` is a multiple `k * total`, the correctly rounded quotient is the same double as `k / 40`, and `40.0` times it truncates to `k` for each `k` from 0 to 40. Otherwise `40 * current / total` lies at least `1 / total` from every integer, far more than the rounding error of the two operations.
- `Progress.Bar` requires `current <= total` and `total > 0`, which is all the progress goroutine ever passes. For other values `strings.Repeat` would panic on a negative count. With `total == 0` the float division gives NaN (for `current == 0`) or +Inf, and `int` of either is an implementation-dependent value.
- `bufio.Scanner`'s 64 KiB token limit. On a longer line the source's scanner loops stop early without reporting an error, because `scanner.Err()` is never checked. The model's reader has no limit.
- Go strings are byte strings and `strings.TrimSpace` decodes UTF-8. Here strings are sequences of characters, so invalid UTF-8 is not modelled.
- Go distinguishes a `nil` slice from an empty one. The model does not: a missing `urls.txt` gives `Success([])`.
