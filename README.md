# docs-to-pdf, modelled in Dafny

docs-to-pdf turns a documentation site into one PDF in three stages:

1. `extract_urls.py` reads the anchors of a table-of-contents page. It keeps
   those with an `href` and non-blank text, normalises each title, derives a
   file name, renames repeated file names with a `_k` counter, and writes the
   manifest (`totalCount`, `baseUrl`, `links`).
2. `save_pages.py` walks the manifest. It skips every link whose PDF already
   exists in the output directory, and renders the others with a Node script.
   It tries at most `max_retries + 1` times per link, with an exponential
   backoff, and counts successes, failures and skips.
3. `merge_pdfs.py` collects the manifest's PDFs that exist, in manifest order.
   It concatenates their pages, records one bookmark per non-empty file at the
   page where that file starts, attaches the bookmarks as outline items, and
   writes the result.

The model keeps each stage's decision logic and abstracts every external tool:

- The HTML parser is replaced by the list of `(href, text)` anchors it yields.
- `str.isalnum` is a character predicate passed in as a parameter.
- The Node renderer is an oracle. For a command line and an attempt number it
  gives the exit code and whether the PDF exists afterwards.
- The filesystem is the set of paths that exist.
- Sleeps are a recorded list of waits.
- The PDF library is a set of oracles: per path a page count or a failed read,
  per bookmark whether attaching it succeeds, and whether the final write
  succeeds together with the file size.

Python's string behaviour is spelled out in `strings.dfy`. This covers:

- `str.isspace` over Unicode;
- `strip`, `lstrip` and `rstrip`;
- `split()` and `' '.join`;
- `rstrip(chars)`, which strips a trailing run of characters, not a suffix;
- `str(int)`;
- POSIX `os.path.join`.

Modules:

- `Strings`: Python string and path helpers.
- `Records`: the manifest types shared by the stages.
- `ExtractUrls`: stage 1.
- `SavePages`: stage 2.
- `MergePdfs`: stage 3.

Imperative code stays imperative. Each such loop is a method proved against a
specification function, and the properties are lemmas about that function:

- the extraction loop;
- the in-place renaming loop over an `array`;
- the retry loop, with its early returns and `continue`;
- the counting loop of `save_pages.py`;
- the file list and merge loops of `merge_pdfs.py`.

Where the code and its intended behaviour disagree, the model follows the code:

- **File names.** Derived file names are meant to be unique within a
  manifest. The code counts only original names, so a renamed entry can
  collide with a later original. `ExtractUrls.RenamedNamesCanCollide` shows
  such a collision on the records that extraction returns for three anchors
  (`ExtractUrls.CollidingRecordsExtracted`), so uniqueness is not claimed.
- **`rstrip('.pdf')`.** It removes a trailing run of the characters `.`, `p`,
  `d`, `f`, so a repeat of `Setup.pdf` becomes `Setu_2.pdf`
  (`ExtractUrls.SetupRepeatLosesItsP`). The model keeps this behaviour.
- **Renderer flag.** The renderer receives `--fileName=`, not the `--title=`
  flag that an old test expects.
- **Merge result keys.** The merge result carries the fields
  merge_pdfs.py:105-114 returns (`output_path`, `file_size`, `page_count`,
  `processed_count`, `error_count`, `bookmarks_count`, `bookmarks`) as
  camelCase Dafny fields. Those names match the keys an old test expects
  (`processedCount`, `errorCount`, `pageCount`) by spelling only: the code
  returns the snake_case keys. On failure the code also returns an `error`
  string (merge_pdfs.py:116-121), which `MergeFailed` does not carry.

## Model

| member | source | states |
|---|---|---|
| Strings.RStrip | extract_urls.py:57 | `rstrip()` gives a prefix of its input that does not end in whitespace; everything it removed is whitespace |
| Strings.Strip | extract_urls.py:30-33 | `strip()` leaves no whitespace at either end, and is empty exactly when the input is all whitespace |
| Strings.StripTrims | extract_urls.py:30-33 | `strip()` returns a contiguous piece `s[k..k+n]` of its input, everything before and after that piece is whitespace, and the piece neither starts nor ends with whitespace |
| Strings.RStripCharsSpec | extract_urls.py:79 | `rstrip(chars)` gives a prefix whose last character is not in `chars`, and it removed only characters from `chars` |
| Strings.SplitKeepsContent | extract_urls.py:28 | the words of `split()`, glued together, are exactly the non-whitespace characters of the input, in order |
| Strings.SplitIsRuns | extract_urls.py:28 | `split()` returns exactly the maximal runs of non-whitespace characters of the input, in order, with no empty word |
| Strings.NormalizeIsJoinedRuns | extract_urls.py:28 | `' '.join(s.split())` is the maximal non-whitespace runs of `s` joined by single spaces: every whitespace run between words collapses to one space, leading and trailing ones vanish |
| Strings.JoinIsNormalized | extract_urls.py:28 | joining whitespace-free words with single spaces gives a string whose only whitespace is single spaces strictly between words |
| Strings.NormalizeSpec | extract_urls.py:28 | `' '.join(s.split())` is normalised, keeps every non-whitespace character in order, and is empty exactly when `s` is all whitespace |
| Strings.StripNormalized | extract_urls.py:30-33 | `strip()` leaves a normalised title unchanged, so the stored title equals the normalised text |
| Strings.NatToStringSpec | extract_urls.py:80 | the counter is written as a non-empty string of decimal digits that reads back as the counter, with no leading zero |
| Strings.PathJoinSpec | save_pages.py:124 | `os.path.join(dir, name)` returns an absolute name unchanged; otherwise it is a fixed prefix (the directory, plus one `/` when it is non-empty and does not already end in one) followed by the name |
| Strings.PathJoinInjective | merge_pdfs.py:26 | two relative file names joined to the same directory give the same path only when the names are equal, so distinct manifest names never share a path (paths are compared as strings) |
| ExtractUrls.KeepSafe | extract_urls.py:57 | the generator keeps an in-order subsequence of the title made only of safe characters, keeps every occurrence of each safe character, and leaves an all-safe title unchanged |
| ExtractUrls.SafeTitle | extract_urls.py:54-58 | `safe_title` is an in-order subsequence of the title, holds only alphanumerics, space, `-`, `_`, `.`, does not end in whitespace, and differs from the kept characters only by trailing whitespace |
| ExtractUrls.SafeTitleIdempotent | extract_urls.py:57-58 | `safe_title(safe_title(t)) == safe_title(t)` |
| ExtractUrls.AnchorRecordSpec | extract_urls.py:21-35 | an anchor gives no record exactly when its href is empty or its text is all whitespace; otherwise its record has that href as url, the normalised text as title (non-empty, no edge or double spaces, same non-whitespace characters), and `safe_title(title) + ".pdf"` as file name |
| ExtractUrls.ExtractedAppend | extract_urls.py:21-35 | extraction preserves anchor order: the records of two anchor lists in a row are the records of the first followed by those of the second |
| ExtractUrls.ExtractedSpec | extract_urls.py:21-37 | there are never more records than anchors, and every record is well formed and carries the href of some anchor |
| ExtractUrls.ExtractUrlsFromHtml | extract_urls.py:18-37 | the loop, with its `continue` on an empty href, returns exactly the per-anchor records in anchor order |
| ExtractUrls.Payload | extract_urls.py:45-49 | the payload's `totalCount` is the number of links, and the links and `baseUrl` pass through unchanged |
| ExtractUrls.Deduplicated | extract_urls.py:72-82 | renaming keeps the number of entries |
| ExtractUrls.DeduplicatedIndex | extract_urls.py:74-82 | entry i is decided by the entries before it alone: it is renamed from the number of earlier entries with its original name |
| ExtractUrls.DeduplicatedAt | extract_urls.py:73-82 | entry i keeps its name exactly when no earlier entry has the same original name; otherwise, as occurrence k = 1 + the earlier ones, it becomes `name.rstrip('.pdf') + "_" + str(k) + ".pdf"`; its url and title never change |
| ExtractUrls.NameCountsSpec | extract_urls.py:73-82 | the counter dictionary after a prefix holds exactly the names seen in it, each with its number of occurrences |
| ExtractUrls.DeduplicatedByCounts | extract_urls.py:75-82 | one turn of the loop: the dictionary counts the entry's name once more, and the entry is renamed with the raised count exactly when its name was already in the dictionary |
| ExtractUrls.DeduplicatedKeepsPdf | extract_urls.py:79-80 | every renamed file name still ends in `.pdf` |
| ExtractUrls.SetupRepeatLosesItsP | extract_urls.py:79-80 | the second `Setup.pdf` is renamed `Setu_2.pdf` |
| ExtractUrls.TwoEqualNames | extract_urls.py:73-82 | two entries named `A.pdf` become `A.pdf` and `A_2.pdf` |
| ExtractUrls.SuffixedTwo | extract_urls.py:79-80 | the second occurrence of a one-character name `c.pdf`, with `c` not among `.pdf`'s characters, is renamed `c_2.pdf` |
| ExtractUrls.RenamedNamesCanCollide | extract_urls.py:77-82 | `a.pdf`, `a.pdf`, `a_2.pdf` become `a.pdf`, `a_2.pdf`, `a_2.pdf`, so names are not guaranteed unique |
| ExtractUrls.PlainTitleRecord | extract_urls.py:54-58 | a title of safe, non-whitespace characters is normalised and is its own safe title, so its record names the file `title.pdf` |
| ExtractUrls.PlainAnchorRecord | extract_urls.py:22-35 | an anchor whose text is one word of safe characters yields the record with that word as title and `word.pdf` as file name |
| ExtractUrls.CollidingRecordsExtracted | extract_urls.py:21-37 | extraction returns exactly the three records of that collision for anchors with texts `a`, `a` and `a_2`, when `a` and `2` are alphanumeric |
| ExtractUrls.AddDuplicateIndex | extract_urls.py:72-82 | the in-place loop over the list, with its counter dictionary, leaves exactly the renamed list |
| ExtractUrls.ExtractMain | extract_urls.py:70-84 | `main` writes the payload of the renamed records; `totalCount` equals the number of links and is at most the number of anchors |
| ExtractUrls.ManifestSpec | extract_urls.py:70-84 | every link of the written manifest has a non-empty url, a non-empty normalised title and a file name ending in `.pdf`, and `totalCount` equals the number of links |
| SavePages.FieldArgsRead | save_pages.py:40-58 | for any fields whose keys are pairwise apart (neither a prefix of the other), reading a field's key back gives its value; a field that produced an argument has it at the reader's position, and one that did not leaves no argument starting with its key |
| SavePages.FieldArgsOrder | save_pages.py:40-58 | an earlier field's argument stands before a later one's |
| SavePages.CommandRoundTrip | save_pages.py:40-58 | reading each flag back from the arguments after `node` and the script gives the url, the file name, the output directory, and exactly the selector and proxy settings that were given; an option that is empty leaves no argument with its flag at all |
| SavePages.CommandShape | save_pages.py:40-58 | the command starts with `node` and the script path and has five arguments plus one per non-empty option |
| SavePages.CommandOrder | save_pages.py:40-58 | `--url=`, `--fileName=` and `--outputDir=` are the first three arguments after the script, in that order, and every option given comes after them |
| SavePages.CommandOptionOrder | save_pages.py:47-58 | the options given appear in the fixed order selector, proxy, proxy user name, proxy password |
| SavePages.Backoff | save_pages.py:74-90 | after failed attempt a the driver waits 2^a seconds |
| SavePages.BackoffTotal | save_pages.py:74-90 | the waits before attempt n add up to 2^n - 1 seconds |
| SavePages.StopAttemptSpec | save_pages.py:60-93 | the attempt where the driver stops is the first that exits 0 with the file present, or the last allowed one; all attempts before it failed |
| SavePages.StopAttemptIs | save_pages.py:60-93 | conversely, an attempt that succeeds, or is the last allowed, after only failures is where the driver stops |
| SavePages.RunNodeSave | save_pages.py:60-95 | at most `max_retries + 1` attempts, none after a success; the result is 0 exactly when some allowed attempt succeeds; otherwise it is 1 when the last exit code was 0 but the file was missing, and that exit code when not; the recorded waits are 1, 2, 4, ... with none after the last attempt |
| SavePages.JoinUrlSpec | save_pages.py:121 | the full url is the base with every trailing `/` removed, then one `/`, then the link url; a link url starting with `/` gives `//` |
| SavePages.RenderedSpec | save_pages.py:119-138 | the links handed to the renderer are listed in increasing order and are exactly the links that were not skipped |
| SavePages.VisitSpec | save_pages.py:121-138 | a link whose PDF exists is skipped and changes nothing; otherwise it is saved exactly when some allowed attempt succeeds, and the filesystem gains at most its PDF, always when saved |
| SavePages.SaveRunPrefix | save_pages.py:120-138 | each link is visited once, in order: the run over a prefix of the links is a prefix of the whole run, and the filesystem only grows |
| SavePages.SaveRunAt | save_pages.py:120-138 | link j meets the filesystem left by the links before it |
| SavePages.SaveRunNewPaths | save_pages.py:124-134 | the filesystem only grows, and every new path is the PDF of a link that was not skipped |
| SavePages.SaveRunSpec | save_pages.py:119-138 | a PDF already present, or saved by an earlier link, makes a link skipped; a link not skipped is saved exactly when some allowed attempt succeeds; every link not counted as failed has its PDF afterwards |
| SavePages.SaveLink | save_pages.py:121-138 | one turn of the loop does what `Visit` specifies |
| SavePages.SaveAll | save_pages.py:119-138 | the loop computes the specified run; the counters count the statuses and add up to the number of links; a link whose PDF exists is never rendered; without failures every link's PDF exists afterwards |
| SavePages.SaveRunOutcome | save_pages.py:124-138 | after a run without failures every link's PDF exists, and a link whose PDF existed beforehand is never handed to the renderer |
| SavePages.RerunSkips | save_pages.py:124-134 | a second run on the filesystem the first left skips every link not counted as failed, and after a run without failures it renders nothing |
| SavePages.RenderedNone | save_pages.py:128-134 | nothing is rendered exactly when every link is skipped |
| SavePages.CountStatusZero | save_pages.py:135-138 | a zero count of a status means no link has that status |
| SavePages.SavePagesMain | save_pages.py:109-138 | exit code 1 exactly when the manifest is unreadable or empty; otherwise the success, failure and skip counts are the numbers of saved, failed and skipped pages in the run over the links (with the output directory created first), and they add up to the number of links |
| MergePdfs.ExistingFilesAppend | merge_pdfs.py:24-37 | the file list keeps manifest order: the list for two link lists in a row is the list for the first followed by the list for the second |
| MergePdfs.ExistingFilesComplete | merge_pdfs.py:24-37 | every link whose PDF exists has its entry (joined path, title, url) in the list |
| MergePdfs.ExistingFilesSound | merge_pdfs.py:24-37 | every listed entry is the entry of some link and its PDF exists; there are no more entries than links |
| MergePdfs.GetPdfFilesInOrder | merge_pdfs.py:16-37 | nothing when the directory does not exist, otherwise exactly the entries of the links whose PDF exists, in manifest order |
| MergePdfs.WithPagesSpec | merge_pdfs.py:64-71 | the files that get a bookmark are listed in increasing order and are exactly the readable files with at least one page |
| MergePdfs.AccumulateCounts | merge_pdfs.py:47-78 | processed plus errors is the number of files; the page count is the total of the readable files' pages and the number of pages written; there is one bookmark per file with pages, and no more bookmarks than processed files |
| MergePdfs.AccumulateBookmarks | merge_pdfs.py:64-71 | bookmark k belongs to the k-th file with pages: its title, its page count, and as page the total of the pages of the files before it |
| MergePdfs.AccumulatePages | merge_pdfs.py:57-62 | the merged document holds the pages of every readable file in order, starting at the total of the pages before that file |
| MergePdfs.PlacedSnoc | merge_pdfs.py:61-62 | appending a file's pages places them right after those of the earlier files |
| MergePdfs.PageSumPrefix | merge_pdfs.py:64-71 | the pages of the files before file i, plus those of file i, are at most the total |
| MergePdfs.BookmarksOrdered | merge_pdfs.py:64-71 | bookmarks have strictly increasing pages, each has at least one page, and each lies inside the merged document |
| MergePdfs.AttachedSpec | merge_pdfs.py:82-95 | a failed attach drops only its own bookmark: the outline holds exactly the bookmarks whose attach succeeded, and all of them when every attach succeeds |
| MergePdfs.MergePdfsWithBookmarks | merge_pdfs.py:39-121 | the result reports success exactly when the write succeeds, even when no file could be read; it then carries the page total, the processed and error counts (adding up to the number of files) and every recorded bookmark, whatever happened to their attaches |
| MergePdfs.MergeMain | merge_pdfs.py:123-162 | exit code 0 exactly when the manifest was read, the directory exists, at least one PDF exists and the write succeeds; 1 otherwise |

## Left out

- The HTML parser, and the catch-all that returns an empty list when parsing fails: the model starts from the anchors the parser yields.
- Reading and writing files and JSON, and creating directories. Only the manifest record and the set of existing paths are modelled. A JSON value Python treats as false stands for every such value.
- A manifest without the `links`, `url`, `title`, `file_name`, `totalCount` or `baseUrl` keys, which raises `KeyError` or falls back to `data.get` defaults: the manifest type always has these fields.
- The Node renderer, its standard output and error, and `time.sleep`. These are an oracle and a list of waits.
- SavePages.Visit: the filesystem gains a PDF only through the last attempt's `fileExists`. A file left by an earlier failed attempt is not modelled.
- SavePages.RunNodeSave: requires `max_retries >= 0`. With a negative value the loop never runs and line 95 reads an unbound variable.
- The script path: `os.path.dirname(__file__)` joined with `savepdf/savepdf.js` is a parameter.
- Paths are compared as strings, not as the operating system resolves them: `a//b` and `a/b` are two paths to the model, and with an empty file name the model looks for `out/` where the set holds `out`, so it renders a link that the code would skip because the directory exists.
- SavePages.RunNodeSave: the renderer oracle is keyed by the command line and the attempt number, so two links with the same url and file name get the same outcome on each attempt.
- pypdf, that is reading, page objects, outline items and writing. These are the reader, attach and write oracles.
- MergePdfs.MergePdfsWithBookmarks: a read is all or nothing. pypdf can fail after adding some pages (merge_pdfs.py:61-62); the model adds none then.
- MergePdfs.MergePdfsWithBookmarks: the handler at merge_pdfs.py:93-94 (a failure while building the outline as a whole) is not modelled; the one at 116-121 only for a failed write (lines 99-100). A failing `os.path.getsize` and other failures of the writer are not modelled.
- `os.path.getsize` is a parameter.
- `str.isalnum` is a parameter. Its Unicode table is not modelled.
- Messages printed to the console.
- Command-line parsing.
- The test runner `test/run_tests.py`.
