# Data specification site generator, modelled in Dafny

`html/generate-site.py` builds a static website from a `conditions/`
directory. Each subdirectory is one condition. Every condition that has a
`description.md` gets a page and a card; one without it is skipped. The
description is converted to HTML by pandoc and poured into the condition
template, together with a list of links to the condition's CSV code lists.
The card on the index page shows the condition's name and a preview: the
first line of the description that is neither blank nor a heading, cut to
150 characters. If no condition has a description, the build stops before
the index page is written.

This project models the string-building core of that script, with the
filesystem and pandoc taken out:

- `pystring.dfy` (module `PyString`): the parts of Python's `str` that the
  script relies on. These are the `str.isspace()` character set, `strip()`,
  the slice `s[:n]` (negative `n` included), `sep.join(parts)` and substring
  occurrence.
- `replace.dfy` (module `Replace`): `str.replace(token, repl)` as a left to
  right scan that does not overlap matches, and a reference reading based on
  `find`/`split`/`join` that is proved equal to it.
- `seqs.dfy` (module `Seqs`): keeping the elements that pass a test,
  Python's code-point order on strings, and `sorted()` by a string key.
- `preview.dfy` (module `Preview`): `get_preview_text`, as a specification
  function over the lines of the file and as the loop with an early return.
- `fragments.dfy` (module `Fragments`): the code-lists section built with
  `+=`, the card, the three placeholder replacements of a condition page, and
  the placeholder replacement of the index page.
- `site.dfy` (module `SiteGenerator`): the loop of
  `generate_condition_pages` over the sorted condition directories and the
  build of `main` with its empty-cards check.
- `wrappers.dfy` (module `Wrappers`): `Option` and `Result`.

The directory contents come in as data. A `ConditionEntry` is one entry of
`conditions/` and holds the following:

- whether the entry is a directory;
- the description as a `TextFile`: `Complete(lines)`, or `Interrupted(lines)`
  when the read raised an exception after delivering `lines`;
- pandoc's output for the description, as an opaque string;
- the names in its `code_lists` directory, or `None` when nothing exists at
  that path (a plain file named `code_lists` gives an empty list of names,
  since `glob` finds nothing in it).

The lines of a `TextFile` are the lines Python's text mode yields, line
endings included. `strip()` removes the line endings.

The script joins the cards with `"\n"` and writes the condition pages
before its empty-cards check. `SiteGenerator.Build` proves that when the
check fails there are no condition pages.

## Model

| member | source | states |
|---|---|---|
| PyString.Strip | html/generate-site.py:58 | `strip()` gives the piece of the line that starts where its leading whitespace ends and has only whitespace before and after it in the line, so exactly the leading and trailing whitespace is removed; the piece neither starts nor ends with whitespace, and it is "" exactly when the line is whitespace only |
| PyString.SliceTo | html/generate-site.py:62 | `line[:max_chars]` is a prefix of the line, with length min(n, len) for n >= 0 and len + n (at least 0) for negative n |
| PyString.Join | html/generate-site.py:143 | the definition of `sep.join(parts)`, with no ensures; JoinStartsWithFirst, JoinAllSpaceIffEmpty and Replace.SplitJoinRoundTrip state its properties |
| Preview.PreviewOf | html/generate-site.py:53-65 | the preview is never longer than a non-negative `max_chars` |
| Preview.GetPreviewText | html/generate-site.py:53-65 | the loop with its early return yields the preview of the lines the file delivered; a read failure yields the preview of the lines read before it, so "" if none of them qualified; the result is at most `max_chars` long |
| Preview.PreviewIsFirstQualifyingLine | html/generate-site.py:57-62 | the preview is the stripped first line that is non-empty and does not start with `#`, cut to `max_chars`, and so a prefix of that stripped line |
| Preview.PreviewEmptyWithoutQualifyingLine | html/generate-site.py:57-65 | when every line is blank or a heading after stripping, the preview is "" |
| Preview.PreviewEmptyIffNoQualifyingLine | html/generate-site.py:57-65 | for a positive `max_chars`, the preview is "" exactly when no line qualifies, and otherwise it is a prefix of the first qualifying line, before which no line qualifies |
| Replace.Find | html/generate-site.py:121-123 | `find` returns -1 or an index at which the token occurs |
| Replace.ReplaceAll | html/generate-site.py:121-123 | the definition of `str.replace` as a left to right scan, with no ensures; ReplaceAllIsSplitJoin, ReplaceAllAbsent, ReplaceAllSkips, ReplaceAllSingle and ReplaceAllAtMatch state what it does |
| Replace.InsertAround | html/generate-site.py:121-123 | `str.replace` with an empty token puts the replacement before every character and once at the end, so the result has len(s) + (len(s) + 1) * len(repl) characters; the generator's tokens are never empty |
| Replace.FindIsFirst | html/generate-site.py:121-123 | no occurrence starts before the index `find` returns, and it returns -1 exactly when the token does not occur |
| Replace.Split | html/generate-site.py:121-123 | `split` yields at least one piece |
| Replace.SplitJoinRoundTrip | html/generate-site.py:121-123 | joining the pieces of `s.split(t)` with `t` gives back `s` |
| Replace.SplitPiecesAvoidSeparator | html/generate-site.py:121-123 | no piece of a split contains the separator |
| Replace.ReplaceAllIsSplitJoin | html/generate-site.py:121-123 | the left to right scan of `str.replace` equals `repl.join(s.split(token))` |
| Replace.ReplaceAllAbsent | html/generate-site.py:121-123 | a replace whose token does not occur leaves the string unchanged |
| Replace.ReplaceAllWithItself | html/generate-site.py:121-123 | replacing a token by itself changes nothing; the script never does this, and the lemma only shows the scan agrees with SplitJoinRoundTrip |
| Replace.ReplaceAllSingle | html/generate-site.py:152 | a string with exactly one occurrence of the token has just that occurrence replaced |
| Replace.ReplaceAllSkips | html/generate-site.py:121-123 | the scan copies a stretch in which no occurrence starts |
| Seqs.Filter | html/generate-site.py:74 | a list comprehension with `if` keeps every element that passes the test as often as it occurs, and drops every other one |
| Seqs.FilterNone | html/generate-site.py:110 | when no element passes the test, nothing is kept |
| Seqs.LexLeTotal | html/generate-site.py:74 | Python's string order compares any two strings |
| Seqs.LexLeTransitive | html/generate-site.py:74 | Python's string order is transitive |
| Seqs.LexLeAntisymmetric | html/generate-site.py:74 | two strings that are each at most the other are equal; with LexLeTotal and LexLeTransitive this makes the order total, and no other member relies on it |
| Seqs.SortBy | html/generate-site.py:74 | `sorted()` yields a permutation of its input in ascending key order |
| Seqs.InsertKeepsSorted | html/generate-site.py:74 | inserting into a sorted list keeps it sorted |
| Seqs.FilterKeepsSorted | html/generate-site.py:74-82 | skipping some of the sorted conditions leaves the rest in sorted order |
| Fragments.CsvFiles | html/generate-site.py:110 | `sorted(code_lists_dir.glob("*.csv"))` is in ascending name order and is a permutation of the entries whose names end with `.csv` |
| Fragments.CodeListsSection | html/generate-site.py:95-115 | the definition of the code-lists section, with no ensures; BuildCodeListsSection proves the `+=` steps build it, and CodeListsSectionEmptyIffNoDirectory, CodeListsSectionWithoutCsv, LinkListPlacesItems and LinksAreCopiedFiles state its properties |
| Fragments.CsvFilesAreTheCsvEntries | html/generate-site.py:102-110 | a name is among the sorted CSV files exactly when it is a `.csv` entry of the directory |
| Fragments.LinkListPlacesItems | html/generate-site.py:110-112 | the list has the `<li>` item of every CSV file, each right after the items of the files before it, so the items come in the order of the files |
| Fragments.BuildCodeListsSection | html/generate-site.py:95-115 | the `+=` steps build "" without a `code_lists` directory, and otherwise the `<div>`/`<h2>`/`<ul>` wrapper around one `<li>` link per CSV file, in sorted order |
| Fragments.AppendLinkItems | html/generate-site.py:110-112 | the loop appends the link item of each file in turn, with href `code_lists/<condition>/<file>` |
| Fragments.CodeListsSectionEmptyIffNoDirectory | html/generate-site.py:95-97 | the section is "" exactly when there is no `code_lists` directory, so that `{{CODE_LISTS_SECTION}}` is replaced by nothing |
| Fragments.CodeListsSectionWithoutCsv | html/generate-site.py:106-115 | a `code_lists` directory without CSV files still gives the wrapper around an empty `<ul>` |
| Fragments.LinksAreCopiedFiles | html/generate-site.py:99-112 | the set of link targets is the set of places the CSV files are copied to |
| Fragments.CardShape | html/generate-site.py:135-139 | a card opens a link to `<name>.html`, has the name in `<h3>` and the preview in `<p>`, ends with `</a>\n`, and starts with a non-whitespace character |
| Fragments.Card | html/generate-site.py:135-139 | the definition of the card's text, with no ensures; CardShape states its shape and SiteGenerator.CardText shows the five `card +=` steps build it |
| Fragments.ConditionPage | html/generate-site.py:121-123 | the definition of the three chained replacements, with no ensures; ConditionPageIsSplitJoinChain, ConditionPageWithoutPlaceholders and ContentIsSubjectToSectionSubstitution state what the chain does |
| Fragments.IndexPage | html/generate-site.py:152 | the definition of the index page's placeholder replacement, with no ensures; IndexPageSinglePlaceholder states what it does |
| Fragments.ConditionPageIsSplitJoinChain | html/generate-site.py:121-123 | the page is the name, then the content, then the code-lists section, each spliced in with `repl.join(s.split(token))`, in that order |
| Fragments.ConditionPageWithoutPlaceholders | html/generate-site.py:121-123 | a template without any of the three placeholders is written out unchanged |
| Fragments.ReplaceAllWholeToken | html/generate-site.py:121-123 | a string that is exactly a placeholder becomes the replacement |
| Fragments.ContentIsSubjectToSectionSubstitution | html/generate-site.py:121-123 | the order of the replacements shows: with a template that is just `{{CONDITION_CONTENT}}`, the page is the converted content with every `{{CODE_LISTS_SECTION}}` in it replaced by the code-lists section |
| Fragments.IndexPageSinglePlaceholder | html/generate-site.py:152 | an index template with one placeholder comment gets the cards at exactly that spot and is unchanged elsewhere |
| SiteGenerator.ProcessConditions | html/generate-site.py:76-141 | the loop yields one page and one card for each condition with a `description.md`, in the order of the conditions, and nothing for the others |
| SiteGenerator.Conditions | html/generate-site.py:74 | the definition of the sorted subdirectories, with no ensures; CardsFollowNameOrder and OneCardPerDescribedCondition state their order and their contents |
| SiteGenerator.GenerateConditionPages | html/generate-site.py:67-143 | the pages and the `"\n"`-joined cards are those of the described subdirectories in name order |
| SiteGenerator.Build | html/generate-site.py:185-195 | the build stops with NoConditionsFound exactly when no subdirectory has a `description.md`, and there are then no condition pages; otherwise the index page is the index template with the joined cards at the placeholder |
| SiteGenerator.OneCardPerDescribedCondition | html/generate-site.py:74-82 | there is one card per described condition, and the described conditions are exactly the subdirectory entries with a `description.md`, each as often as it occurs |
| SiteGenerator.CardsFollowNameOrder | html/generate-site.py:74-143 | the cards come in ascending name order; the k-th card links to the file name of the k-th page and shows the k-th name |
| SiteGenerator.CardsShowPreviews | html/generate-site.py:132-137 | each card shows its condition's preview in `<p>`, and that preview is at most 150 characters long |
| SiteGenerator.CardsBlankIffNoDescribedCondition | html/generate-site.py:141-143 | the joined cards are whitespace only, so `strip()` gives "", exactly when no subdirectory has a `description.md` |
| PyString.JoinAllSpaceIffEmpty | html/generate-site.py:143 | joining parts that start with a non-whitespace character gives a whitespace-only string exactly when there are no parts |

## Left out

- Pandoc: the conversion is a call to an external tool. Its output is an opaque string per condition. A failed conversion aborts the whole build, and that is not modelled.
- The dependency check for pandoc, logging to stderr, the banners printed by `main`, and `sys.exit`: these are output and process control only.
- Filesystem work is replaced by data: `iterdir`, `exists`, `mkdir`, `glob`, `shutil.copy`, writing the pages and the temporary directory. Only the link targets are related to the copy destinations, by `Fragments.LinksAreCopiedFiles`.
- Exceptions in `main`: a missing `conditions/` directory, an unreadable template, a failed copy (for example a directory whose name ends in `.csv`) or a failed write all abort the build. The model has no such failures.
- The condition template is read once per condition in the source. The model takes one template for all conditions, since the file is the same.
- A condition named `index` would have its page overwritten by the index page. The model returns the pages and the index page separately and does not model that overwrite.
- Seqs.SortBy: does not state that entries with equal names keep their input order, because directory names are unique and the order among equal keys is not observable in the output.
- Names are inserted into HTML without escaping, as the source does. The model states nothing about well-formed HTML.
- Matching `*.csv` is case-sensitive, as it is on POSIX systems.
