# Rucco, modelled in Dafny

Rucco is a Docco derivative: it splits source files into documentation and
code sections and renders each file as an HTML page with a shared stylesheet.
This project models the logic around its comment/code lexer, and proves
properties of that model:

- **Configuration.** `merge_tables` combines the embedded base config with
  the user's ruccofile. After that, the command line takes precedence over
  the config for the output directory, the recursion flag and the entries
  (module `MergeTables`, module `Settings`).
- **Paths.** `htmlize` names a page after its source file. The loop in
  `process_file` builds the relative stylesheet link (module `Paths`).
- **Language cache.** `Languages` caches one matcher per language key and
  computes it at most once (module `Languages`, a class over a map).
- **Segments.** The `Segment` accumulator's push rule extends or replaces
  the current segment. Folding push over a stream gives the compactor
  (module `Segments`, a class holding the current segment, and a loop).
- **Classic template.** The `heading` matcher for the pattern
  `(?i)\A[ \t]*<h(\d)+>(.*?)</h\d+>` is written by hand and proved equal to
  a declarative reading of the pattern (module `Heading`). The decisions
  `render` makes are also modelled: title, title row, jump-to list, section
  ids, pilcrow class and link, and the empty-page placeholder (module
  `ClassicTemplate`).

TOML values are a datatype with a `Table(map<string, Value>)` case (module
`Toml`). `Option` and `Result` live in `Wrappers`. Every `expect`/`panic!`
in the configuration reading of `main` becomes an `Err` of `Settings.ConfError`,
checked in the order `main` evaluates them.

## Model

| member | source | states |
|---|---|---|
| MergeTables.MergeTables | src/main.rs:189-204 | The merged keys are exactly the union of both key sets. A key in custom wins unless both values are tables. A key only in base keeps its value. Two tables merge recursively. The `panic!` arm cannot be reached. The result equals the map-comprehension reading `Merged`. |
| MergeTables.MergeEmptyCustom | src/main.rs:191-202 | Merging with an empty custom table gives back the base. |
| MergeTables.MergeEmptyBase | src/main.rs:191-202 | Merging an empty base with a custom table gives back the custom table. |
| MergeTables.MergeIdempotent | src/main.rs:193-198 | Merging a table with itself gives the same table, at every nesting depth. |
| MergeTables.MergeAbsorbsCustom | src/main.rs:193-198 | Merging the same custom table a second time changes nothing. |
| Toml.Get | src/main.rs:193 | A lookup finds a value exactly when the key is present, and that value is the table's. |
| Settings.SubTable | src/main.rs:325-328 | The `input`/`output` section is found exactly when it exists and is a table. Otherwise the error says which of the two failures occurred. |
| Settings.OutputDir | src/main.rs:332-337 | A command-line output wins. Otherwise `output.dir` must exist and be a string, and it is used as given. A missing `dir` and a non-string `dir` give different errors. |
| Settings.Recursive | src/main.rs:341-347 | `--non-recursive` forces `false`. Otherwise `input.recursive` must exist and be a boolean, and its value is used. A missing key and a non-boolean value give different errors. |
| Settings.EntryStrings | src/main.rs:355-356 | All entries convert exactly when every one is a string. The conversion keeps order and length. |
| Settings.Entries | src/main.rs:351-359 | Non-empty command-line inputs replace `input.entries`. Otherwise the result is Ok exactly when `input.entries` is an array of strings, and then it is those strings. The error says whether the key is missing, the value is not an array, or an entry is not a string. |
| Settings.Resolve | src/main.rs:325-367 | Success is tied to each part above in both directions. The error reported is the first failure in the order `main` reads the configuration: `input`, `output`, the output directory, the recursion flag, the entries, then `languages`. An error about a setting is reported only when the command line did not decide that setting. |
| Settings.CommandLineOverrides | src/main.rs:332-359 | Suppose output, non-recursion and inputs are all given on the command line, and the config has its `input`, `output` and `languages` tables. Then the settings are the command line's values plus the configured languages. |
| Settings.RuccofileOverridesBase | src/main.rs:323-337 | A ruccofile's `output.dir` overrides the embedded base's after `merge_tables`. |
| Settings.BaseFillsGaps | src/main.rs:323-337 | The base's `output.dir` survives the merge when the ruccofile does not set one. |
| Paths.FileName | src/main.rs:295 | A path has a file name exactly when its last component is a normal name. |
| Paths.SetFileName | src/main.rs:301 | Setting the file name makes it the last component. The parent components are kept. A path with no file name gets the name pushed onto it. |
| Paths.Htmlize | src/main.rs:294-304 | The file name `f` becomes `f + ".html"`. The parents and the length are unchanged. A path without a file name is returned unchanged. |
| Paths.HtmlTargetsDistinct | src/main.rs:294-304 | Two different source files never share an HTML target. |
| Paths.CssPath | src/main.rs:272-276 | The link is `"../"` repeated once for each component after the first, followed by `style.css`. A path of 0 or 1 components gives `style.css`. |
| Paths.CssPathReachesRoot | src/main.rs:270-276 | From the page's directory, the link climbs exactly to the output root's `style.css`. |
| Languages.Languages.constructor | rucco_lib/src/languages.rs:10-12 | The cache starts empty. `raw` is stored unchanged. |
| Languages.Languages.Get | rucco_lib/src/languages.rs:14-23 | Afterwards `l` is cached and the result is the cached value. An already cached key is returned without recomputing, and the cache is unchanged. Otherwise the value is computed once: `compute(raw[l])`, or `None` for an unknown language. Every other key is untouched. |
| Languages.GetTwice | rucco_lib/src/languages.rs:14-23 | Two lookups of one key agree, and the key was computed exactly once. |
| Languages.CachedOnce | rucco_lib/src/languages.rs:17 | A key recorded in the computation log appears in it once. |
| Segments.LeadingHashes | rucco_lib/src/segment.rs:3 | Counts the run of leading `#`. |
| Segments.TitleOf | rucco_lib/src/segment.rs:3 | A line starting with `#` is a title whose level is the number of leading `#`. Its text is kept verbatim. |
| Segments.TitleOfExample | rucco_lib/src/segment.rs:3 | `"## lol"` becomes `Title(2, "## lol")`. |
| Segments.Accumulator.constructor | rucco_lib/src/segment.rs:17-21 | The current slot starts `Empty`. |
| Segments.Accumulator.Push | rucco_lib/src/segment.rs:11-33 | Pushing `Empty` changes nothing. Pushing into an empty slot fills it. Code onto Code or Doc onto Doc appends the text. A second Title is dropped. Any other change of kind replaces the segment and flushes the old one. |
| Segments.Compact | rucco_lib/src/segment.rs:11-13 | The loop computes `Compacted`: push folded over the events, then the final segment flushed. |
| Segments.FoldInvariant | rucco_lib/src/segment.rs:11-13 | While folding, the flushed segments are dense. The current segment has the kind of the last non-empty event and differs in kind from the last flushed one. Nothing is flushed while the slot is still empty. |
| Segments.CompactedIsDense | rucco_lib/src/segment.rs:11-13 | The compacted stream has no `Empty` segment and no two neighbours of the same kind. |
| Segments.CompactedKeepsText | rucco_lib/src/segment.rs:11-29 | For Code and for Doc, the concatenated text is the same before and after compaction, in the original order. |
| Segments.CompactedTitles | rucco_lib/src/segment.rs:22-25 | The titles left after compaction are those of the reference definition, which drops a title that directly follows another one. |
| Segments.AllTitlesKept | rucco_lib/src/segment.rs:22-25 | Without back-to-back titles, every title survives compaction in order. |
| Segments.CompactIdempotent | rucco_lib/src/segment.rs:11-13 | Compacting twice is the same as compacting once. |
| Segments.CompactedKeepsOrder | rucco_lib/src/segment.rs:11-33 | Cut into one-character pieces, the compacted stream is the reference `KeptAtoms`. That reference is every character of every code and documentation segment, plus every title not directly after a title, in arrival order across all kinds. |
| Segments.CompactedIsRegrouping | rucco_lib/src/segment.rs:11-33 | Without back-to-back titles, cutting the compacted stream and the input into one-character pieces gives the same sequence. |
| Segments.OrderExample | rucco_lib/src/segment.rs:11-13 | `[Doc("a"), Code("b"), Doc("c")]` compacts to pieces in that order. So `[Code("b"), Doc("ac")]`, which has the same per-kind texts, is not the compaction. |
| Segments.DenseIsCompacted | rucco_lib/src/segment.rs:11-13 | A stream that is already dense is left unchanged. |
| Heading.Heading | rucco_lib/src/templates/classic.rs:26-38 | A heading's level is a single digit and its text has no newline. `HeadingSound`, `HeadingComplete` and `HeadingNone` prove the result is `Some` exactly when the pattern matches at the start of the documentation. The level is the last digit of the opening tag, and the text ends at the first closing tag. |
| Heading.SkipBlanks | rucco_lib/src/templates/classic.rs:26 | Finds the end of the leading run of spaces and tabs. |
| Heading.SkipDigits | rucco_lib/src/templates/classic.rs:26 | Finds the end of a run of digits. |
| Heading.FindClose | rucco_lib/src/templates/classic.rs:26 | Finds the first closing `</h\d+>` that no newline precedes. `None` means there is no such tag. |
| Heading.HeadingSound | rucco_lib/src/templates/classic.rs:26-37 | Any heading the matcher returns is a match of the pattern with the lazy group stopping at the first closing tag. Its level is the last digit captured by `(\d)+`. |
| Heading.HeadingComplete | rucco_lib/src/templates/classic.rs:26-37 | Whenever the pattern matches, the matcher returns the heading with that level. Its text ends at the first closing tag. |
| Heading.HeadingNone | rucco_lib/src/templates/classic.rs:26-37 | `None` means the pattern matches nowhere at the start of the documentation. |
| Heading.HeadingExample | rucco_lib/src/templates/classic.rs:16-37 | `"<h1>MAH TITLE</h1>docdocdoc"` gives `("1", "MAH TITLE")`. |
| Heading.HeadingLastDigit | rucco_lib/src/templates/classic.rs:26-32 | `"<h12>x</h3>"` gives level `"2"` and text `"x"`. The closing level need not match the opening one. |
| ClassicTemplate.Decimal | rucco_lib/src/templates/classic.rs:97 | Writes a section index as a non-empty string of digits. |
| ClassicTemplate.DecimalRoundTrip | rucco_lib/src/templates/classic.rs:97 | Reading back the decimal notation gives the index. |
| ClassicTemplate.DecimalInjective | rucco_lib/src/templates/classic.rs:97 | Distinct indices are written differently. |
| ClassicTemplate.AsWrittenPilcrowMissesEveryId | rucco_lib/src/templates/classic.rs:97-105 | The pilcrow link as written, `#section<i>`, never equals `#` plus any item's id. |
| ClassicTemplate.PilcrowTargetsOwnItem | rucco_lib/src/templates/classic.rs:97-105 | The corrected link of item i names item j exactly when i = j. |
| ClassicTemplate.Items | rucco_lib/src/templates/classic.rs:96-113 | One item per section, in order. Item k is built from section `start + k`. |
| ClassicTemplate.JumpLinks | rucco_lib/src/templates/classic.rs:78-82 | One link per docfile, in order. The href is the path and the text is the file name. |
| ClassicTemplate.Render | rucco_lib/src/templates/classic.rs:49-121 | There are no sections exactly when the result is the placeholder `"nothing to see here..."`. The title is the first section's heading text, else the source path. A title row, showing the source path, appears exactly when the first section has no heading. The jump-to list appears exactly when there is more than one docfile. It has one link per docfile, in order, with the path as href and the file name as text. Item i has id `section-i`, its section's doc and code, and the pilcrow class. Its pilcrow link is the corrected `#section-i`, not the template's `#section<i>` (see Findings). |
| ClassicTemplate.ItemIdsDistinct | rucco_lib/src/templates/classic.rs:96-97 | No two items of a page share an id. |
| ClassicTemplate.PilwrapClassLevel | rucco_lib/src/templates/classic.rs:99-104 | The class is `"pilwrap for-" + level` for a section with a heading, and `"pilwrap "` otherwise. |
| ClassicTemplate.RenderTitled | rucco_lib/src/templates/classic.rs:50-95 | When the first section has a heading and there are several docfiles, the page takes the heading text as its title and shows the jump-to list but no title row. |
| ClassicTemplate.RenderExample | rucco_lib/src/templates/classic.rs:11-22 | The template's usage example renders with title `MAH TITLE`, two jump links, no title row, and one item `section-0` with class `pilwrap for-1`. Its pilcrow link is the corrected `#section-0`, where the template writes `#section0`. |

## Left out

- `compute_regex` (the per-language regex builder) and `extract_segments` (the lexer) are not part of this model. `Languages` takes the computation as a constructor parameter `compute` and the matcher as a type parameter.
- Command-line parsing with clap (`cli`, `Args::new`) is replaced by the `Settings.Args` record of already-parsed options.
- File and environment I/O is left out: reading and writing the ruccofile, the embedded config, creating directories, unpacking resources, canonicalising paths, the directory walk, and reading and writing the pages. The parsed base and custom tables are parameters.
- Parallel processing (`par_iter`) and the `thread_local!` lazy creation of the `Languages` cache are left out. The model uses one cache object.
- The syntax highlighting and markdown rendering in `render.rs` are left out. So is the HTML markup of the template: a `Page` records only the decisions.
- TOML floats and the details of TOML datetimes are left out. A datetime is an opaque string.
- Heading.Heading: digits are ASCII only, whereas Rust's `\d` also matches other Unicode decimal digits.
- Segments.Segment: a title's level is a `nat`, whereas the source uses `u8`. Levels above 255 are not truncated.
- Paths: conversion of paths to UTF-8 strings (`to_str().expect`) is left out. Components are already strings.
- ClassicTemplate.Render: renders the corrected pilcrow link `#section-<i>`, not the source's `#section<i>` (classic.rs:105), which names no item (see Findings). `PilcrowHrefAsWritten` models the link as written.
- ClassicTemplate.Render: a docfile is given as its path string and optional file name. The `unwrap` on a missing file name is a precondition, required only when the jump-to list is shown.
- ClassicTemplate.Render: a missing or non-UTF-8 source path string (the `expect` at classic.rs:55) is not modelled. The source path is a string.
- Segments: `segment.rs` does not compile as written. The model follows its comment and match arms, and adds an `Empty` constructor for the empty current slot. A Title pushed onto a Title is dropped, as the error arm does, rather than flushed.

## Findings

| source | as written | input that shows it | evidently intended | confidence | as-written member | corrected member |
|---|---|---|---|---|---|---|
| rucco_lib/src/templates/classic.rs:105 | The pilcrow link is `"#section" (i)`, but the item id at line 97 is `"section-" (i)`. | Section 0: the link is `#section0` and the id is `section-0`, so the link names no element. | The pilcrow links to its own section, i.e. `#section-<i>`. | not executed | ClassicTemplate.AsWrittenPilcrowMissesEveryId | ClassicTemplate.PilcrowTargetsOwnItem |
