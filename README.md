# obsidian-meets-hugo, modelled in Dafny

This project models the conversion core of *obsidian-meets-hugo*. The tool
turns an Obsidian vault into a Hugo content tree in four steps:

- It loads the vault into a tree of directories holding notes and static
  files.
- It builds a link map from every note title to the note's web path.
- It copies the static files under their converted names and adds them to
  the link map.
- It writes every note as a Hugo page: front matter first, then the content
  with its `[[wiki links]]` rewritten through the link map.

The modules follow the Go files:

| module | Go source | form |
|---|---|---|
| `FrontMatter` | `pkg/front-matter.go` | the front-matter lookups as functions; the scanner loop as a method |
| `ObsidianNote` | `pkg/obsidian.go` (notes) | `HugoFrontMatter`, `extractDate` and `LoadObsidianNote` as methods, proved against reference functions |
| `ObsidianDirectory` | `pkg/obsidian.go` (link map) | the recursive `linkMap` walk as methods that fill a map |
| `ObsidianLoader` | `pkg/obsidian.go` (loading) | `LoadObsidianDirectory` as a method over an in-memory directory listing |
| `WikiLinks` | `pkg/omh.go` (link rewriting) | `ReplaceAllStringFunc` with `\[\[.+?\]\]` as a recursive function `ReplaceAll` over any callback; `Replace` is the callback of `convertNote` |
| `Omh` | `pkg/omh.go` | the `Converter` as a class whose link map and output tree are fields |
| `Sanitizer` | `pkg/sanitizer.go` | `Sanitize` as a function |
| `Texts`, `Paths`, `Maps`, `Wrappers` | Go's `strings` and `path/filepath` | the library functions the core relies on |

Each method that loops is proved against a reference function. For example:

- `Converter.ProcessFiles` is proved against `FileCopies` and `Assign`.
- `Converter.ProcessNotes` is proved against `NoteVisits` and `WritePages`.
- `LoadObsidianDirectory` is proved against `LoadSpec`.

The lemmas state what the Go code promises about those functions.

The file system is modelled as values:

- The vault is a tree of `Entry` values.
- A directory that cannot be listed and a file that cannot be read stand for
  the I/O errors.
- The Hugo tree is the `Converter.written` map from path to `Copy(source)`
  or `Page(text)`.

External collaborators are parameters:

- YAML decoding is a `Decoder` function.
- YAML encoding is a `Marshal` function.
- Date parsing and formatting come from a `Clock`.
- The name converter is a function.

Two behaviours of the code are easy to overlook, and the model keeps both:

- **Where front matter may start.** `ParseFrontMatterMarkdown` takes the lines between the first two `---` lines, wherever they are, so a block need not start the document. A block with no closing `---` line gives meta lines and an empty body (`FrontMatter.SplitUnclosed`, `FrontMatter.ParsedLinesUnclosed`).
- **Duplicate titles.** The code only logs them. In the link map, the later entry wins (`ObsidianDirectory.LinkMapLastWins`).

## Model

| member | source | states |
|---|---|---|
| FrontMatter.String | pkg/front-matter.go:28-38 | a missing key gives ""; a string value is returned as is; any other value is rendered the way `%v` renders it |
| FrontMatter.Strings | pkg/front-matter.go:40-63 | a missing key gives nil; a `[]string` is returned as is; a `[]interface{}` gives one rendered string per element, in order; any other value gives nil |
| FrontMatter.LookupExamples | pkg/front-matter_test.go:12-31 | `Has` and `String` on the two test maps give the asserted answers |
| FrontMatter.StringsExamples | pkg/front-matter_test.go:33-40 | `Strings` gives nil for an integer and for a string, the `[]string` as it is, and the `[]interface{}` of strings element by element |
| FrontMatter.ScanLines | pkg/front-matter.go:70-72 | the scanned lines hold no newline |
| FrontMatter.ScanLinesOfJoin | pkg/front-matter.go:70-72 | scanning lines joined with "\n" gives back the lines, when none is empty at the end and none holds "\n" or ends in "\r" |
| FrontMatter.FindMarker | pkg/front-matter.go:71-76 | the result is the first `---` line at or after `from`, or the end when there is none |
| FrontMatter.ScanSections | pkg/front-matter.go:66-82 | the state-machine loop collects exactly the meta and body lines of `Split` |
| FrontMatter.ParseFrontMatterMarkdown | pkg/front-matter.go:65-94 | the method returns the reference result `Parsed` |
| FrontMatter.SplitWithoutMarker | pkg/front-matter.go:71-82 | with no `---` line there are no meta lines and no body lines |
| FrontMatter.SplitClosed | pkg/front-matter.go:71-82 | the lines between the first two markers are the meta lines; everything after the second marker, later markers included, is the body |
| FrontMatter.SplitUnclosed | pkg/front-matter.go:71-82 | with one marker only, all later lines are meta lines and the body is empty |
| FrontMatter.MissingFrontMatter | pkg/front-matter.go:83-85 | no marker, or two markers with nothing between them, fail with `ErrNoFrontMatter` |
| FrontMatter.ParsedLines | pkg/front-matter.go:65-94 | for any document, whatever its line endings, whose scanned lines hold a closed block: the block's lines joined with "\n" are decoded; a decoder error is returned; otherwise the body is the lines after the second marker, joined and trimmed |
| FrontMatter.ParsedLinesUnclosed | pkg/front-matter.go:65-94 | for any document whose scanned lines hold a block never closed: a decoder error is returned; otherwise the body is empty |
| FrontMatter.ParsedDocument | pkg/front-matter.go:83-93 | a document built by joining lines with "\n" parses as `ParsedLines` states for those lines |
| FrontMatter.ParsedUnclosed | pkg/front-matter.go:83-93 | a document built by joining lines with "\n" whose block is never closed, and decodes, gives an empty body |
| FrontMatter.ParseExample | pkg/front-matter_test.go:42-61 | the test document yields the decoded meta lines and the body "and the body and stuff" |
| FrontMatter.ParseCodeBlockExample | pkg/front-matter_test.go:63-89 | in the test document, the `---` lines inside the fenced block stay in the body, which equals the raw body |
| FrontMatter.OneBlockDocument | pkg/front-matter.go:65-94 | a one-line block followed by a blank line and a body parses to the decoded line and the trimmed body |
| FrontMatter.BlankLineJoin | pkg/front-matter_test.go:82 | joining around an empty line is the same as inserting "\n\n" |
| Texts.TrimSuffix | pkg/obsidian.go:101 | a present suffix is removed so that result + suffix is the input; otherwise the input is unchanged |
| Texts.IndexOf | pkg/omh.go:182 | the first index holding the character, or the length when there is none |
| Texts.TrimSpace | pkg/front-matter.go:93 | the result starts and ends with a non-space |
| Texts.TrimSpaceCut | pkg/front-matter.go:93 | the result is a slice of the input with only white space cut on both sides |
| Texts.TrimSpaceAfterSpaces | pkg/front-matter.go:93 | leading white space before a trimmed text is dropped |
| Texts.JoinAppend | pkg/front-matter.go:88 | joining two non-empty lists is joining each and putting the separator between |
| Paths.JoinAssociative | pkg/omh.go:73 | joining a directory, a sub-directory and a name regroups freely |
| Paths.LastElementShape | pkg/obsidian.go:101 | the last path element is a suffix with no '/', preceded by '/' when it is not the whole path |
| Paths.ExtShape | pkg/omh.go:72 | the extension is a suffix of the path; it is empty or starts with its only '.'; no '/' follows it; an empty extension means the last element has no '.' |
| Paths.ExtOfSuffix | pkg/omh.go:72-73 | a suffix that starts with its only '.' and holds no '/' is the extension of any path it ends |
| Paths.TitleRoundTrip | pkg/obsidian.go:101 | a note title followed by the file's extension is the file's base name |
| Paths.TitleOfMarkdown | pkg/obsidian.go:101 | a markdown file named `stem.md` is titled `stem` |
| Paths.BaseOfJoin | pkg/obsidian.go:157 | the base name of a joined path is the name joined |
| Paths.TitleExample | pkg/obsidian_test.go:151-165 | "fixtures/source/Some Note.md" is titled "Some Note" |
| Sanitizer.Sanitize | pkg/sanitizer.go:5-9 | every character of the result is a letter, a digit or '-' |
| Sanitizer.SanitizeCounts | pkg/sanitizer.go:5-9 | an allowed character occurs in the result as often as in the input; any other occurs zero times |
| Sanitizer.SanitizeAppend | pkg/sanitizer.go:5-9 | sanitising distributes over concatenation |
| Sanitizer.SanitizeIdentity | pkg/sanitizer.go:5-9 | a text of allowed characters is unchanged |
| Sanitizer.SanitizeIdempotent | pkg/sanitizer.go:5-9 | sanitising twice is sanitising once |
| Sanitizer.SanitizeExamples | pkg/sanitizer_test.go:15-18 | the four test cases give the expected texts |
| Maps.AssignAppend | pkg/obsidian.go:142 | assigning two runs of pairs is assigning them one after the other |
| Maps.AssignKeys | pkg/obsidian.go:142 | the keys after the assignments are the old keys plus the assigned keys |
| Maps.AssignLastWins | pkg/obsidian.go:135-142 | a key no later pair assigns again holds its own pair's value |
| Maps.AssignUntouched | pkg/omh.go:81 | a key no pair assigns keeps its presence and its value |
| ObsidianNote.ExtractDate | pkg/obsidian.go:61-87 | the method returns the reference outcome `DateOf` |
| ObsidianNote.ParseFromFirst | pkg/obsidian.go:75-86 | a date is found exactly when some format parses; the date is the one from the first such format; the date is unsupported exactly when no format parses |
| ObsidianNote.DatePriority | pkg/obsidian.go:62-71 | "date updated" wins over "date created"; with neither key there is no date |
| ObsidianNote.HugoMatterKeys | pkg/obsidian.go:34-59 | the title is forced and aliases are dropped; other keys come from the added map first and then from the note; a UTC date is added exactly when neither map has one and a date is found |
| ObsidianNote.HugoFrontMatter | pkg/obsidian.go:34-59 | the copy loops, the title, the date and the alias removal give `HugoMatter` |
| ObsidianNote.CopyEntries | pkg/obsidian.go:36-41 | after one copy loop the keys are the union; copied entries override; other entries are kept |
| ObsidianNote.LoadObsidianNote | pkg/obsidian.go:89-108 | an unreadable file and a front-matter error are returned; a loaded note's title plus the file's extension is its base name |
| ObsidianDirectory.FillLinkMap | pkg/obsidian.go:132-147 | the recursive walk assigns a link entry for every placed note, in walk order |
| ObsidianDirectory.FillNotes | pkg/obsidian.go:133-143 | the first loop assigns `title -> join(prefix, convert(title)) + "/"` for each note, in order |
| ObsidianDirectory.FillChild | pkg/obsidian.go:144-146 | walking child `j` extends the map by that child's placements |
| ObsidianDirectory.LinkMap | pkg/obsidian.go:126-130 | the method returns `LinkMapOf` of the whole tree with an empty prefix |
| ObsidianDirectory.LinkMapKeys | pkg/obsidian.go:126-147 | the keys of the link map are exactly the titles of all notes in the tree; an empty directory gives an empty map |
| ObsidianDirectory.LinkMapLastWins | pkg/obsidian.go:132-147 | a title that no later note in walk order shares maps to its directory path joined with its converted title, plus "/" |
| ObsidianDirectory.LinkMapFlat | pkg/obsidian_test.go:176-187 | in a flat directory, each title maps to its converted title plus "/" |
| ObsidianDirectory.LinkMapLeveled | pkg/obsidian_test.go:188-229 | a sub-directory's note maps below the converted name of the sub-directory |
| ObsidianDirectory.PlacementTitles | pkg/obsidian.go:132-147 | the walk places exactly the notes of the tree |
| ObsidianLoader.LoadObsidianDirectory | pkg/obsidian.go:150-218 | the method returns the reference result `LoadSpec` |
| ObsidianLoader.LoadEntry | pkg/obsidian.go:161-214 | one entry is handled by `Step`: hidden entries are skipped; directories are recursed into and kept only when not empty; notes are loaded, skipped when they lack front matter, and filtered; everything else is a static file |
| ObsidianLoader.StepContents | pkg/obsidian.go:161-214 | one entry adds at most its own file name and at most its own note |
| ObsidianLoader.LoadFromFiles | pkg/obsidian.go:161-214 | the loaded files are the static files of the listing, in order |
| ObsidianLoader.LoadFromNotes | pkg/obsidian.go:161-214 | the loaded notes are the accepted notes of the listing, in order |
| ObsidianLoader.StepChild | pkg/obsidian.go:170-184 | one entry appends, when recursing, exactly its loaded sub-directory if that is non-empty, and nothing otherwise |
| ObsidianLoader.StepError | pkg/obsidian.go:161-214 | one entry fails the load exactly when it is broken (a sub-directory that fails to load while recursing, or a note that fails with anything but missing front matter), and with that entry's error |
| ObsidianLoader.LoadFromChilds | pkg/obsidian.go:170-184 | the children of a successful pass are, when recursing, exactly the loaded non-empty sub-directories of the listing, in order; without recursion there are none |
| ObsidianLoader.LoadFromSucceeds | pkg/obsidian.go:161-214 | a pass over entries none of which is broken succeeds |
| ObsidianLoader.LoadFromFails | pkg/obsidian.go:161-214 | a pass fails with the error of the first broken entry |
| ObsidianLoader.LoadedChildsNotEmpty | pkg/obsidian.go:179-181 | no loaded child is an empty directory |
| ObsidianLoader.Classification | pkg/obsidian.go:150-218 | a loaded directory has the path's name and the path; its files are the static files, its notes the accepted notes, and, when recursing, its children exactly the loaded non-empty sub-directories of its listing, each in order |
| ObsidianLoader.LoadErrors | pkg/obsidian.go:150-218 | a missing or unlistable directory fails with the read error of its path; a listable one fails exactly when some entry is broken, and then with the error of the first broken entry |
| WikiLinks.TokenEnd | pkg/omh.go:151-153 | a token found at `i` ends at least five characters later, within the text |
| WikiLinks.CloseFromShape | pkg/omh.go:151-153 | the match ends at the first "]]" reached without crossing a newline |
| WikiLinks.TokenEndShape | pkg/omh.go:151-153 | a token opens with "[[", holds one character or more and no newline, and closes at the first "]]" after that |
| WikiLinks.ReplaceWhole | pkg/omh.go:177-196 | a link without a bar character becomes `[name](/sub/target)` when the name is in the map, and stays the bare name otherwise |
| WikiLinks.ReplaceTitled | pkg/omh.go:177-196 | a link of a target without a bar, a bar and a title becomes `[title](/sub/target)` when the target is in the map, and the bare title otherwise |
| WikiLinks.SplitInner | pkg/omh.go:182-184 | the first bar character splits the link text into target and title, and the target holds no bar |
| WikiLinks.RewriteNoToken | pkg/omh.go:177 | for any callback, a text in which no token starts is unchanged |
| WikiLinks.PlainPrefix | pkg/omh.go:177 | for any callback, text before the first '[' is copied unchanged |
| WikiLinks.CopyTokenFree | pkg/omh.go:177 | for any callback, the text before the first position where a token starts is copied unchanged |
| WikiLinks.TokenFirst | pkg/omh.go:177-180 | for any callback, a token at the start is replaced by the callback on its inner text and the rest is scanned on its own |
| WikiLinks.RewriteToken | pkg/omh.go:177-197 | for any callback, when the leftmost token starts at `i` and ends at `e`, the text before it is copied, the token becomes the callback on its inner text, and scanning resumes at `e` |
| WikiLinks.PlainBeforeToken | pkg/omh.go:177-197 | for any callback, `pre [[inner]] post` with no '[' in `pre` becomes `pre`, the callback on `inner`, then `post` rewritten |
| WikiLinks.LinkExample | pkg/omh.go:177-197 | "a [[B]] c" becomes "a [B](/p/b/) c" |
| WikiLinks.MissingExample | pkg/omh.go:186-194 | a link to a missing target becomes its title |
| WikiLinks.NotRescannedExample | pkg/omh.go:152 | the shortest match is taken and the replacement is not scanned again |
| Omh.RenameTags | pkg/omh.go:161-167 | with a tags key other than "" or "tags", "tags" moves to that key and nothing else changes; otherwise the map is unchanged |
| Omh.WritePagesAppend | pkg/omh.go:116-149 | the pages of two runs are written one after the other; the second run is skipped once the first fails |
| Omh.WritePagesStops | pkg/omh.go:124-127 | after a failure nothing more is written |
| Omh.WritePagesDone | pkg/omh.go:116-149 | a phase without error converted every visited note and wrote a page at each one's path; each path holds the page of the last note written there; every other path keeps its old output |
| Omh.WritePagesLastWins | pkg/omh.go:122-134 | after a phase without error, a note's path holds that note's page unless a later note is written to the same path |
| Omh.WritePagesUntouched | pkg/omh.go:122-134 | a path no visited note is written to keeps its presence and its output, even when the phase fails |
| Omh.WritePagesFailed | pkg/omh.go:123-127 | a failed phase names the first note whose conversion failed, with that failure as cause |
| Omh.VisitsArePlacements | pkg/omh.go:116-149 | the note phase visits exactly the notes of the link-map walk, in order and under the same directory paths |
| Omh.FileLinkWins | pkg/omh.go:78-81 | a static file overrides a link-map entry of the same name; the last copy of a name decides its link |
| Omh.NoteLinkKept | pkg/omh.go:78-81 | a link no static file shadows keeps its presence and its value |
| Omh.DestNameKeepsExt | pkg/omh.go:72-73 | a copied file keeps its extension |
| Omh.LinksAppend | pkg/omh.go:70-94 | the link entries of two runs of copies are assigned one after the other |
| Omh.Converter.Init | pkg/omh.go:43-45 | the link map is the link map of the whole vault; no output is written |
| Omh.Converter.Run | pkg/omh.go:48-59 | the final link map is the vault's link map overridden by every copied file; the outputs are the copies followed by the pages of all visited notes, each rendered with that final link map; the result is the note phase's error |
| Omh.Converter.ProcessFiles | pkg/omh.go:61-97 | each file is copied, and its link assigned, in walk order; children with neither files nor children are skipped |
| Omh.SkipInFilesLosesNothing | pkg/omh.go:85-88 | a child with neither files nor children, which the file phase skips, has no copies to make |
| Omh.SkipInNotesLosesNothing | pkg/omh.go:137-140 | a child with neither notes nor children, which the note phase skips, has no notes to visit |
| Omh.Converter.ProcessChildFiles | pkg/omh.go:85-94 | the link map and the outputs gain exactly the copies of child `j`: none when it has neither files nor children, its whole walk otherwise |
| Omh.Converter.CopyFiles | pkg/omh.go:70-82 | each file goes to `static/<sub>/<rel>/<converted stem><ext>`, and its link is `<rel>/<converted stem><ext>` |
| Omh.Converter.ProcessNotes | pkg/omh.go:116-149 | the pages are written in visit order; the first conversion failure is returned, with nothing written after it; the link map is unchanged |
| Omh.Converter.ProcessChildNotes | pkg/omh.go:137-146 | the pages written and the error are those of writing the visits of child `j`: none when it has neither notes nor children, its whole walk otherwise; the link map is unchanged |
| Omh.Converter.WriteNotes | pkg/omh.go:122-134 | each note is converted and written to `content/<sub>/<rel>/<converted title>.md`, and the first failure stops the loop |
| Omh.Converter.ConvertNote | pkg/omh.go:155-202 | the page text: front matter and tag rename, "---" lines, two blank lines, the rewritten content; a marshal error is returned |

## Left out

- File I/O is modelled as values. `os.MkdirAll`, `os.OpenFile`, `io.Copy` and `ioutil.WriteFile` are not modelled, and neither are their failures. So in the model the file phase never fails, and a page write never fails. Writing a page replaces what the path held; the effect of `O_CREATE` without truncation on a longer existing file is not modelled.
- A copy's output is recorded as `Copy(source)`; the bytes copied are not modelled.
- YAML decoding and encoding are parameters (`Decoder`, `Marshal`). So are `time.Parse`, `time.ParseInLocation` with the package's `TimeZone`, and UTC RFC 3339 formatting (`Clock`). The model makes no claim about what they compute.
- Logging is not modelled: the duplicate-link warning, the missing-target warning, the unsupported-date warning and the debug traces.
- Unsupported dates are dropped, as in the code.
- The `Parent` and `Directory` back-pointers are not modelled, because nothing in the core reads them.
- `path.Join` and `filepath.Join` are modelled as lexical joins without `Clean`, so "." and ".." elements and doubled slashes are not normalised.
- `bufio.Scanner`'s 64 KiB line limit is not modelled. A longer line makes the Go scanner stop early.
- The link of a copied file is computed in the code by searching the destination path for `static/<SubPath>`. The model carries the relative directory instead, which gives the same text whenever that word does not occur earlier in the Hugo root.
- `ioutil.ReadDir` sorts entries by name. The model takes the listing as given, in the order it is given.
- `Converter.copyFile` is not modelled beyond its result in the output map.
- The command line in `cmds/omh` is not part of this model. Neither is the unused `front.NewMatter` handler set up in `init`.
- The sanitizer's regular expression works on runes. Here a string is a sequence of `char`, so invalid UTF-8 bytes are not modelled.
- Each loop body that recurses, or that needs its own proof, is a helper method:
  - `LoadEntry`, `FillChild`, `FillNotes`, `ProcessChildFiles`, `ProcessChildNotes`, `CopyFiles`, `WriteNotes`, `ScanSections`, `CopyEntries`.
  - The Go code keeps these bodies inline.
- Errors are values, not Go `error`s:
  - `Option`/`Result` carry them.
  - `RunError` keeps the failing note's title and cause, not the formatted message.
- `Strings` returns `None` for Go's nil and `Some` for a slice.
