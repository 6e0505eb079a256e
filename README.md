# chaoser: catalog selection, directory naming and archive routing

chaoser downloads the Chaos index of bug-bounty programs (`index.json`, one
object per program with its archive `URL`, its `program` name and the `bounty`
and `swag` reward flags), picks the programs matching the command line, downloads
each program's zip archive and either appends every extracted file to one
`<base>.txt` file or, with `-decompile`, extracts each archive into its own
directory `<base>/<sanitized program name>/`.

This project models the deterministic core of `main.go`, which the program has
inline in `main`:

- `Flags` — resolving `-bounty-only`, `-swag-only` and `-all` into the two
  include flags or one of the two fatal configuration errors, in the order the
  program checks them (`allTypes` is switched off in place before the include
  flags are derived).
- `Catalog` — the `ProgramEntry` record, the filter rule (`Keep`, tested in the
  program's order: disabled bounty, disabled swag, no reward type, target), the
  filter as a sequence function (`Filter`), and the loop that builds the
  download list, proved equal to it. Properties: the list is an order-preserving
  subsequence of the catalog holding exactly the entries that pass the rule,
  filtering is idempotent, and the reward and target rules hold of every kept entry.
- `Text` — ASCII lower-casing and substring search, standing in for
  `strings.ToLower` and `strings.Contains`.
- `Naming` — `sanitizeName`: length preserved, no space or slash left, every
  other character kept in place, idempotent, and an exact characterisation of
  when two program names share a sanitized name ("Foo Bar" and "Foo/Bar" both
  become "Foo_Bar"; the program then writes both archives into that one
  directory, files of the same name overwriting each other). Sanitizing also
  leaves the names "" and "." unchanged, and `filepath.Join` (main.go:247) turns
  both into the output directory itself (`Naming.CurrentNameSurvives`); it leaves
  ".." unchanged too, so a program of that name would be extracted into the
  parent of the output directory (`Naming.ParentNameSurvives`).
- `Routing` — the two loops over one archive's file records, each record given
  as the outcomes of its I/O calls (open, create, copy). Single-file mode is a
  class `SingleFile` whose byte sequence stands for the shared output file;
  `AppendArchive` appends the contents of the records that open, in listing
  order, each as one contiguous block. Per-program mode (`ExtractArchive`)
  stops when the program directory cannot be created and otherwise counts the
  records that open and get an output file; a failed copy is still counted.

Two behaviours of the program that the model follows:

- The program holds no lock around the shared single-file handle: every
  goroutine calls `io.Copy` on the same `*os.File` (main.go:238). The model
  appends one archive at a time and does not model interleaving.
- Per-program mode counts a record once its output file is created, even if
  the copy into it fails (main.go:261-272). Single-file mode counts nothing.

## Model

| member | source | states |
|---|---|---|
| Text.Lower | main.go:131 | the lower-cased text has the same length, holds no uppercase ASCII letter, keeps every other character in place and turns each uppercase letter into its lowercase counterpart |
| Text.Contains | main.go:158-159 | a text contains each of its prefixes, and never contains a text longer than itself |
| Flags.ResolveRewardFlags | main.go:117-130 | both exclusive flags give the "cannot be used together" error; bounty-only gives (true,false); swag-only gives (false,true); neither gives (true,true) with -all and the "must specify at least one" error without it; an accepted resolution never disables both reward types |
| Flags.BountyOnlySelectsPureBounty | main.go:129-153 | with the bounty-only include pair every selected program has a bounty and no swag |
| Flags.SwagOnlySelectsPureSwag | main.go:129-153 | with the swag-only include pair every selected program has swag and no bounty |
| Flags.DefaultSelectsEveryClassified | main.go:129-164 | with both reward types and no target, a program is selected exactly when it is in the catalog and has a reward type |
| Catalog.TargetMatches | main.go:157-162 | the empty target matches every entry; a matching target is no longer than the program name or no longer than the URL |
| Catalog.TargetMatchesAt | main.go:157-162 | an entry matches exactly when the lower-cased target occurs at some position of the lower-cased program name or of the lower-cased URL |
| Catalog.Keep | main.go:148-162 | the chain of `continue` guards keeps an entry exactly when it has a reward type, none of its reward types is disabled, and a non-empty target occurs in its lower-cased name or URL |
| Catalog.Filter | main.go:146-164 | the filtered list is no longer than the catalog and every entry in it comes from the catalog and passes the rule (soundness) |
| Catalog.FilterSnoc | main.go:147-163 | one more catalog entry adds at most that entry, at the end of the list |
| Catalog.BuildDownloadList | main.go:131-164 | the loop with its `continue` guards builds exactly the filtered list |
| Catalog.FilterComplete | main.go:146-164 | every catalog entry that passes the rule is in the list (completeness) |
| Catalog.FilterIsKeptSubsequence | main.go:146-164 | the list is the catalog's entries at strictly increasing positions, and those positions are exactly the ones whose entry passes the rule |
| Catalog.FilterPicksKept | main.go:146-164 | the k-th entry of the list is the catalog entry at the k-th kept position |
| Catalog.FilterIdempotent | main.go:146-164 | filtering the list again with the same criteria returns the same list |
| Catalog.FilterRespectsRewardTypes | main.go:148-156 | every kept entry has a reward type; none has a bounty when bounties are disabled or swag when swag is disabled; an entry with both is kept only when both are enabled |
| Catalog.UnclassifiedNeverKept | main.go:154-156 | an entry with neither reward type is never kept, whatever the criteria |
| Catalog.TargetRespected | main.go:157-162 | with a non-empty target every kept entry contains the lower-cased target in its lower-cased name or URL |
| Catalog.EmptyTargetKeepsAllowedRewards | main.go:157-163 | with an empty target every entry whose reward types are allowed is kept |
| Text.ContainsAt | main.go:158-159 | the substring test holds exactly when the target occurs at some position of the text |
| Text.EmptyContainedEverywhere | main.go:157-162 | the empty target occurs in every text, as for `strings.Contains` |
| Naming.ReplaceAll | main.go:44-45 | same length as the input, every occurrence of the replaced character becomes the replacement (so none is left when the two differ), every other character unchanged in place |
| Naming.SanitizeName | main.go:43-47 | same length as the name, no space and no slash in the result, spaces and slashes become '_' and every other character stays at its position |
| Naming.SanitizeIdempotent | main.go:43-47 | sanitizing a sanitized name changes nothing |
| Naming.SameSanitizedNameIff | main.go:43-47 | two names get the same sanitized name exactly when they have equal length and agree at each position up to ' ', '/' and '_' |
| Naming.SanitizeConcat | main.go:43-47 | sanitizing a concatenated name sanitizes each part separately |
| Naming.SpaceAndSlashCollide | main.go:43-47 | two names differing only by a space against a slash at one position are distinct yet get the same sanitized name |
| Naming.FooBarCollision | main.go:43-47 | the distinct names "Foo Bar" and "Foo/Bar" both become "Foo_Bar" |
| Naming.CurrentNameSurvives | main.go:246-247 | the empty name and "." are left unchanged by sanitizing |
| Naming.ParentNameSurvives | main.go:246-247 | the name ".." is left unchanged by sanitizing |
| Routing.CountExtracted | main.go:253-273 | the number of counted records never exceeds the number of records |
| Routing.AppendedDistributes | main.go:232-242 | the bytes appended for two runs of records are those of the first followed by those of the second |
| Routing.RecordContiguous | main.go:232-242 | within one archive, when no other worker writes to the file, an opened record's content appears as one block, between the bytes of the records before it and those after it |
| Routing.FailedOpenSkipped | main.go:233-237 | a record that fails to open contributes nothing, as if it were absent |
| Routing.CountDistributes | main.go:253-273 | the count over two runs of records is the sum of their counts |
| Routing.AllCountedIff | main.go:253-273 | every record is counted exactly when every record opens and gets its output file |
| Routing.CopyOutcomeIgnored | main.go:267-272 | the count does not depend on the copy outcomes: a failed copy is counted too |
| Routing.SingleFile.constructor | main.go:182 | the single output file starts empty |
| Routing.SingleFile.AppendArchive | main.go:232-242 | the file afterwards is its old bytes followed by the contents of the records that opened, in listing order |
| Routing.ExtractArchive | main.go:246-273 | a failed directory creation reports failure without looking at a record; otherwise `fileCount` is the number of records that opened and got an output file |

## Left out

- Fetching and decoding `index.json` and downloading each archive (HTTP, `io.ReadAll`, JSON decoding): network I/O and library decoding; the model starts from the decoded entry list and from each archive's records.
- Zip parsing (`zip.NewReader`, `f.Open`): a foreign library; each record is given as its open outcome and content.
- File-system effects (`os.Create`, `os.MkdirAll`, `filepath.Join`, `io.Copy`) inside the per-archive loops: only their success or failure is modelled; file contents in per-program mode and the paths built are not.
- Routing.SingleFile.constructor: always succeeds; the fatal exits when the output file or the output directory cannot be created (main.go:182-184, 190-191) are not modelled, and neither is creating the output directory.
- The goroutine per entry, the semaphore of size `-concurrent` and the `WaitGroup`: concurrency; neither the bound nor the interleaving of writes to the shared file is modelled.
- Flag parsing, the usage text and all log output: command-line plumbing.
- The `-show-programs` listing (a library sort by lower-cased name and formatted printing): reporting only.
- The default output name built from the current date: it depends on the clock.
- The early return on an empty download list (main.go:166-169): the program stops before creating any output file or directory (main.go:180-194), so it produces no output; the model does not include this step.
- Text.Lower: ASCII-only lower-casing, whereas `strings.ToLower` folds all of Unicode; it is applied to both sides of the substring test.
- Routing.SingleFile.AppendArchive: appends a record's whole content even when the source's `io.Copy` fails part-way; partial writes are not modelled.
