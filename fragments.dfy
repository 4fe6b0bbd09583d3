/**
 * The HTML fragments html/generate-site.py builds by string concatenation:
 * the code-lists section of a condition page, the card of a condition on the
 * index page, and the placeholder substitutions into the two templates.
 */
module Fragments {
  import opened Wrappers
  import opened PyString
  import opened Replace
  import opened Seqs

  const NameToken := "{{CONDITION_NAME}}"
  const ContentToken := "{{CONDITION_CONTENT}}"
  const SectionToken := "{{CODE_LISTS_SECTION}}"
  const CardsPlaceholder := "<!-- CONDITION_CARDS_PLACEHOLDER -->"

  /** The text before the first code-list link. */
  const CodeListsOpen := "<div class=\"code-lists\">\n<h2>Code Lists</h2>\n<ul>\n"
  /** The text after the last code-list link. */
  const CodeListsClose := "</ul>\n</div>"

  /** The file a condition's page is written to, relative to the site directory. */
  function PageFileName(conditionName: string): string {
    conditionName + ".html"
  }

  /** Where a code list is copied to, relative to the site directory. */
  function CodeListPath(conditionName: string, fileName: string): string {
    "code_lists/" + conditionName + "/" + fileName
  }

  /** A directory entry that the pattern `*.csv` matches: its name ends with `.csv`. */
  predicate IsCsv(fileName: string) {
    |fileName| >= 4 && fileName[|fileName| - 4..] == ".csv"
  }

  /** The sort key of a code-list file: its name, as `sorted()` on paths of one directory compares them. */
  function NameKey(fileName: string): string {
    fileName
  }

  /**
   * `sorted(code_lists_dir.glob("*.csv"))`, as names: the CSV entries of the
   * directory, each as often as it is there, in ascending code-point order.
   */
  function CsvFiles(entries: seq<string>): (r: seq<string>)
    ensures SortedBy(r, NameKey)
    ensures multiset(r) == multiset(Filter(entries, IsCsv))
  {
    SortBy(Filter(entries, IsCsv), NameKey)
  }

  /** A name is among the sorted CSV files exactly when it is a CSV entry of the directory. */
  lemma CsvFilesAreTheCsvEntries(entries: seq<string>)
    ensures forall f :: f in CsvFiles(entries) <==> f in entries && IsCsv(f)
  {
    var r := CsvFiles(entries);
    assert forall f :: f in r <==> f in multiset(Filter(entries, IsCsv));
  }

  /** The list item linking one code list. */
  function LinkItem(conditionName: string, fileName: string): string {
    "<li><a href=\"" + CodeListPath(conditionName, fileName) + "\">" + fileName + "</a></li>\n"
  }

  /** The list items of the given files, one after the other, in the order given. */
  function LinkList(conditionName: string, files: seq<string>): string {
    if files == [] then ""
    else LinkList(conditionName, files[..|files| - 1]) + LinkItem(conditionName, files[|files| - 1])
  }

  /**
   * The list holds the item of every file, in the order of the files: the
   * item of `files[k]` starts right after the items of the files before it.
   */
  lemma {:induction false} LinkListPlacesItems(conditionName: string, files: seq<string>)
    ensures forall k :: 0 <= k < |files| ==>
      OccursAt(LinkList(conditionName, files), LinkItem(conditionName, files[k]), |LinkList(conditionName, files[..k])|)
  {
    if files != [] {
      var init, last := files[..|files| - 1], files[|files| - 1];
      LinkListPlacesItems(conditionName, init);
      var front, lastItem := LinkList(conditionName, init), LinkItem(conditionName, last);
      forall k | 0 <= k < |files|
        ensures OccursAt(front + lastItem, LinkItem(conditionName, files[k]), |LinkList(conditionName, files[..k])|)
      {
        if k < |files| - 1 {
          assert files[..k] == init[..k] && files[k] == init[k];
          OccursInFront(front, lastItem, LinkItem(conditionName, files[k]), |LinkList(conditionName, files[..k])|);
        } else {
          assert files[..k] == init;
          OccursAtEnd(front, lastItem);
        }
      }
    }
  }

  /** An occurrence in `a` is an occurrence in `a + b`. */
  lemma OccursInFront(a: string, b: string, t: string, i: int)
    requires OccursAt(a, t, i)
    ensures OccursAt(a + b, t, i)
  {
    assert (a + b)[i..i + |t|] == a[i..i + |t|];
  }

  /** `b` occurs in `a + b` right after `a`. */
  lemma OccursAtEnd(a: string, b: string)
    ensures OccursAt(a + b, b, |a|)
  {
    assert (a + b)[|a|..|a| + |b|] == b;
  }

  /**
   * The code-lists section of a condition page. `codeLists` is None when the
   * condition has no `code_lists` directory and otherwise holds the names
   * of the directory's entries.
   */
  function CodeListsSection(conditionName: string, codeLists: Option<seq<string>>): string {
    match codeLists
    case None => ""
    case Some(entries) => CodeListsOpen + LinkList(conditionName, CsvFiles(entries)) + CodeListsClose
  }

  /** Building the section with `+=`, one link per CSV file in sorted order (lines 95-115). */
  method BuildCodeListsSection(conditionName: string, codeLists: Option<seq<string>>) returns (section: string)
    ensures section == CodeListsSection(conditionName, codeLists)
  {
    section := "";
    if codeLists.Some? {
      section := "<div class=\"code-lists\">\n";
      section := section + "<h2>Code Lists</h2>\n";
      section := section + "<ul>\n";
      CodeListsOpenText();
      var files := CsvFiles(codeLists.value);
      section := AppendLinkItems(section, conditionName, files);
      CodeListsCloseText(section);
      section := section + "</ul>\n";
      section := section + "</div>";
    }
  }

  /** The loop over the sorted CSV files: one list item appended per file, in order. */
  method AppendLinkItems(start: string, conditionName: string, files: seq<string>) returns (section: string)
    ensures section == start + LinkList(conditionName, files)
  {
    section := start;
    assert files[..0] == [];
    for k := 0 to |files|
      invariant section == start + LinkList(conditionName, files[..k])
    {
      var fileName := files[k];
      var item := "<li><a href=\"code_lists/" + conditionName + "/" + fileName + "\">"
        + fileName + "</a></li>\n";
      LinkItemText(conditionName, fileName);
      assert files[..k + 1][..k] == files[..k];
      section := section + item;
    }
    assert files[..|files|] == files;
  }

  /** The three opening lines written one by one make up CodeListsOpen. */
  lemma CodeListsOpenText()
    ensures "<div class=\"code-lists\">\n" + "<h2>Code Lists</h2>\n" + "<ul>\n" == CodeListsOpen
  {
  }

  /** The two closing lines written one by one make up CodeListsClose. */
  lemma CodeListsCloseText(s: string)
    ensures s + "</ul>\n" + "</div>" == s + CodeListsClose
  {
  }

  /** The f-string of a link item, piece by piece. */
  lemma LinkItemText(conditionName: string, fileName: string)
    ensures "<li><a href=\"code_lists/" + conditionName + "/" + fileName + "\">" + fileName + "</a></li>\n"
      == LinkItem(conditionName, fileName)
  {
  }

  /** The section is "" exactly when there is no `code_lists` directory. */
  lemma CodeListsSectionEmptyIffNoDirectory(conditionName: string, codeLists: Option<seq<string>>)
    ensures CodeListsSection(conditionName, codeLists) == "" <==> codeLists.None?
  {
    if codeLists.Some? {
      var s := CodeListsSection(conditionName, codeLists);
      assert s[0] == CodeListsOpen[0];
    }
  }

  /** An existing directory without CSV files still gives the wrapper around an empty list. */
  lemma CodeListsSectionWithoutCsv(conditionName: string, entries: seq<string>)
    requires forall k :: 0 <= k < |entries| ==> !IsCsv(entries[k])
    ensures CodeListsSection(conditionName, Some(entries))
      == "<div class=\"code-lists\">\n<h2>Code Lists</h2>\n<ul>\n</ul>\n</div>"
  {
    FilterNone(entries, IsCsv);
    assert CsvFiles(entries) == [];
    assert LinkList(conditionName, []) == "";
  }

  /**
   * The links of the section point at exactly the places the CSV files are
   * copied to (`output_dir / "code_lists" / condition_name / csv_file.name`):
   * every copied file is linked and every link names a copied file.
   */
  lemma {:induction false} LinksAreCopiedFiles(conditionName: string, entries: seq<string>)
    ensures var files := CsvFiles(entries);
      (set k | 0 <= k < |files| :: CodeListPath(conditionName, files[k]))
      == (set f | f in entries && IsCsv(f) :: CodeListPath(conditionName, f))
  {
    var files := CsvFiles(entries);
    var linked := set k | 0 <= k < |files| :: CodeListPath(conditionName, files[k]);
    var copied := set f | f in entries && IsCsv(f) :: CodeListPath(conditionName, f);
    CsvFilesAreTheCsvEntries(entries);
    forall p | p in copied ensures p in linked {
      var f :| f in entries && IsCsv(f) && p == CodeListPath(conditionName, f);
      assert f in files;
      var k :| 0 <= k < |files| && files[k] == f;
    }
  }

  /** The rest of a card's opening tag after its link target. */
  const CardLinkEnd := "\" class=\"condition-card\">\n"
  /** The call-to-action line of a card. */
  const CardArrow := "<span class=\"arrow\">View Details \U{2192}</span>\n"

  /** The card shown for a condition on the index page (lines 135-139). */
  function Card(conditionName: string, preview: string): string {
    "<a href=\"" + PageFileName(conditionName) + CardLinkEnd
      + "<h3>" + conditionName + "</h3>\n"
      + "<p>" + preview + "</p>\n"
      + CardArrow
      + "</a>\n"
  }

  /**
   * A card links to the condition's page, shows the name as `<h3>` and the
   * preview as `<p>`, and closes its link; it starts with `<`, so it is never
   * whitespace only.
   */
  lemma CardShape(conditionName: string, preview: string)
    ensures "<a href=\"" + PageFileName(conditionName) + CardLinkEnd <= Card(conditionName, preview)
    ensures Contains(Card(conditionName, preview), "<h3>" + conditionName + "</h3>\n")
    ensures Contains(Card(conditionName, preview), "<p>" + preview + "</p>\n")
    ensures "</a>\n" == Card(conditionName, preview)[|Card(conditionName, preview)| - 5..]
    ensures Card(conditionName, preview) != [] && !IsSpace(Card(conditionName, preview)[0])
  {
    var head := "<a href=\"" + PageFileName(conditionName) + CardLinkEnd;
    var h3 := "<h3>" + conditionName + "</h3>\n";
    var p := "<p>" + preview + "</p>\n";
    var tail := "</a>\n";
    CardPieces(conditionName, preview);
    Pieces(head, h3, p, CardArrow, tail);
  }

  /** The card as its five lines. */
  lemma CardPieces(conditionName: string, preview: string)
    ensures Card(conditionName, preview)
      == ("<a href=\"" + PageFileName(conditionName) + CardLinkEnd) + ("<h3>" + conditionName + "</h3>\n")
        + ("<p>" + preview + "</p>\n") + CardArrow + "</a>\n"
  {
  }

  /** Where the first, second, third and last of five concatenated strings sit. */
  lemma Pieces(a: string, b: string, c: string, d: string, e: string)
    ensures a <= a + b + c + d + e && (a != [] ==> (a + b + c + d + e)[0] == a[0])
    ensures OccursAt(a + b + c + d + e, b, |a|)
    ensures OccursAt(a + b + c + d + e, c, |a| + |b|)
    ensures e == (a + b + c + d + e)[|a + b + c + d + e| - |e|..]
  {
    var s := a + b + c + d + e;
    assert s[|a|..|a| + |b|] == b;
    assert s[|a| + |b|..|a| + |b| + |c|] == c;
    assert s == (a + b + c + d) + e;
  }

  /** The condition page: the three placeholders replaced in this order (lines 121-123). */
  function ConditionPage(template: string, conditionName: string, content: string, section: string): string {
    var named := ReplaceAll(template, NameToken, conditionName);
    var filled := ReplaceAll(named, ContentToken, content);
    ReplaceAll(filled, SectionToken, section)
  }

  /**
   * Each step of the page chain is Python's `repl.join(s.split(token))`, the
   * name first, then the content, then the code-lists section.
   */
  lemma ConditionPageIsSplitJoinChain(template: string, conditionName: string, content: string, section: string)
    ensures ConditionPage(template, conditionName, content, section)
      == Join(Split(Join(Split(Join(Split(template, NameToken), conditionName), ContentToken), content), SectionToken), section)
  {
    var named := ReplaceAll(template, NameToken, conditionName);
    var filled := ReplaceAll(named, ContentToken, content);
    ReplaceAllIsSplitJoin(template, NameToken, conditionName);
    ReplaceAllIsSplitJoin(named, ContentToken, content);
    ReplaceAllIsSplitJoin(filled, SectionToken, section);
  }

  /** A template without any of the three placeholders is written out unchanged. */
  lemma ConditionPageWithoutPlaceholders(template: string, conditionName: string, content: string, section: string)
    requires !Contains(template, NameToken) && !Contains(template, ContentToken) && !Contains(template, SectionToken)
    ensures ConditionPage(template, conditionName, content, section) == template
  {
    ReplaceAllAbsent(template, NameToken, conditionName);
    ReplaceAllAbsent(template, ContentToken, content);
    ReplaceAllAbsent(template, SectionToken, section);
  }

  /** A string that is exactly the token is replaced by the replacement. */
  lemma ReplaceAllWholeToken(t: string, repl: string)
    requires t != []
    ensures ReplaceAll(t, t, repl) == repl
  {
    assert t[..|t|] == t;
    assert t[|t|..] == [];
  }

  /**
   * The substitution order is visible: with a template that is just the
   * content placeholder, the page is the converted content with the
   * code-lists section spliced in wherever that content holds the text
   * `{{CODE_LISTS_SECTION}}`, because that placeholder is replaced after the
   * content is in.
   */
  lemma ContentIsSubjectToSectionSubstitution(conditionName: string, content: string, section: string)
    ensures ConditionPage(ContentToken, conditionName, content, section) == ReplaceAll(content, SectionToken, section)
  {
    assert !Contains(ContentToken, NameToken) by {
      forall i | 0 <= i <= |ContentToken| ensures !OccursAt(ContentToken, NameToken, i) {
        if i == 0 {
          assert ContentToken[i..i + |NameToken|][12] != NameToken[12];
        } else if i + |NameToken| <= |ContentToken| {
          assert ContentToken[i..i + |NameToken|][1] != NameToken[1];
        }
      }
    }
    ReplaceAllAbsent(ContentToken, NameToken, conditionName);
    ReplaceAllWholeToken(ContentToken, content);
  }

  /** The index page: the cards placed at the placeholder comment (line 152). */
  function IndexPage(template: string, cards: string): string {
    ReplaceAll(template, CardsPlaceholder, cards)
  }

  /** An index template with one placeholder comment gets the cards at exactly that spot. */
  lemma IndexPageSinglePlaceholder(template: string, cards: string, i: nat)
    requires OccursAt(template, CardsPlaceholder, i)
    requires forall j :: 0 <= j < i ==> !OccursAt(template, CardsPlaceholder, j)
    requires !Contains(template[i + |CardsPlaceholder|..], CardsPlaceholder)
    ensures IndexPage(template, cards)
      == template[..i] + cards + template[i + |CardsPlaceholder|..]
  {
    ReplaceAllSingle(template, CardsPlaceholder, cards, i);
  }
}
