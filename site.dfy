/**
 * The page generation of html/generate-site.py with the filesystem taken
 * out: the entries of the `conditions/` directory come in as data, each with
 * what the generator would find in it, and the pages and the cards come out.
 */
module SiteGenerator {
  import opened Wrappers
  import opened PyString
  import opened Replace
  import opened Seqs
  import opened Preview
  import opened Fragments

  /**
   * One entry of the `conditions/` directory. `description` is None when the
   * entry has no `description.md`; `convertedHtml` is what pandoc makes of
   * that file; `codeLists` is None when there is no `code_lists` directory and
   * otherwise holds the names of its entries.
   */
  datatype ConditionEntry = ConditionEntry(
    name: string,
    isDirectory: bool,
    description: Option<TextFile>,
    convertedHtml: string,
    codeLists: Option<seq<string>>)

  /** A generated file: its name in the site directory and its text. */
  datatype Page = Page(fileName: string, html: string)

  /** The one way the build stops before writing the index page. */
  datatype BuildError = NoConditionsFound

  /** The name of the index page in the site directory. */
  const IndexFileName := "index.html"

  predicate IsDirectory(e: ConditionEntry) {
    e.isDirectory
  }

  predicate HasDescription(e: ConditionEntry) {
    e.description.Some?
  }

  function NameOf(e: ConditionEntry): string {
    e.name
  }

  /** `sorted([d for d in conditions_dir.iterdir() if d.is_dir()])`: the subdirectories by name. */
  function Conditions(entries: seq<ConditionEntry>): seq<ConditionEntry> {
    SortBy(Filter(entries, IsDirectory), NameOf)
  }

  /** The conditions that get a page and a card: those with a `description.md`, in the given order. */
  function Described(conditions: seq<ConditionEntry>): seq<ConditionEntry> {
    Filter(conditions, HasDescription)
  }

  /** The lines the preview is taken from; a condition without a description has none. */
  function DescriptionLines(c: ConditionEntry): seq<string> {
    if c.description.Some? then c.description.value.lines else []
  }

  /** The page written for a condition. */
  function PageOf(template: string, c: ConditionEntry): Page {
    Page(PageFileName(c.name),
      ConditionPage(template, c.name, c.convertedHtml, CodeListsSection(c.name, c.codeLists)))
  }

  /** The card of a condition, with its preview cut at the default length. */
  function CardOf(c: ConditionEntry): string {
    Card(c.name, PreviewOf(DescriptionLines(c), DefaultMaxChars))
  }

  /** One page per condition, in order. */
  function PagesFor(template: string, conditions: seq<ConditionEntry>): (r: seq<Page>) {
    seq(|conditions|, k requires 0 <= k < |conditions| => PageOf(template, conditions[k]))
  }

  /** One card per condition, in order. */
  function CardsFor(conditions: seq<ConditionEntry>): (r: seq<string>) {
    seq(|conditions|, k requires 0 <= k < |conditions| => CardOf(conditions[k]))
  }

  /**
   * `generate_condition_pages` (lines 67-143): the subdirectories in name
   * order; one without `description.md` is skipped, every other one gets its
   * page and its card; the result is the cards joined with newlines.
   */
  method GenerateConditionPages(template: string, entries: seq<ConditionEntry>)
    returns (pages: seq<Page>, cards: string)
    ensures pages == PagesFor(template, Described(Conditions(entries)))
    ensures cards == Join(CardsFor(Described(Conditions(entries))), "\n")
  {
    var conditions := Conditions(entries);
    var cardList: seq<string>;
    pages, cardList := ProcessConditions(template, conditions);
    cards := Join(cardList, "\n");
  }

  /** The loop over the sorted subdirectories (lines 76-141). */
  method ProcessConditions(template: string, conditions: seq<ConditionEntry>)
    returns (pages: seq<Page>, cardList: seq<string>)
    ensures pages == PagesFor(template, Described(conditions))
    ensures cardList == CardsFor(Described(conditions))
  {
    pages, cardList := [], [];
    assert conditions[..0] == [];
    for i := 0 to |conditions|
      invariant pages == PagesFor(template, Described(conditions[..i]))
      invariant cardList == CardsFor(Described(conditions[..i]))
    {
      var c := conditions[i];
      DescribedSnoc(conditions[..i + 1]);
      assert conditions[..i + 1][..i] == conditions[..i];
      if c.description.None? {
        continue;
      }
      var section := BuildCodeListsSection(c.name, c.codeLists);
      var page := template;
      page := ReplaceAll(page, NameToken, c.name);
      page := ReplaceAll(page, ContentToken, c.convertedHtml);
      page := ReplaceAll(page, SectionToken, section);
      pages := pages + [Page(c.name + ".html", page)];

      var preview := GetPreviewText(c.description.value, DefaultMaxChars);
      var card := "<a href=\"" + c.name + ".html\" class=\"condition-card\">\n";
      card := card + "<h3>" + c.name + "</h3>\n";
      card := card + "<p>" + preview + "</p>\n";
      card := card + "<span class=\"arrow\">View Details \U{2192}</span>\n";
      card := card + "</a>\n";
      CardText(c.name, preview);
      cardList := cardList + [card];
      MapsSnoc(template, Described(conditions[..i]), c);
    }
    assert conditions[..|conditions|] == conditions;
  }

  /** Filtering a sequence that ends in `x` adds `x` at the end exactly when it has a description. */
  lemma DescribedSnoc(cs: seq<ConditionEntry>)
    requires cs != []
    ensures Described(cs) == Described(cs[..|cs| - 1]) + if HasDescription(cs[|cs| - 1]) then [cs[|cs| - 1]] else []
  {
  }

  /** Pages and cards of one more condition extend the lists by its page and its card. */
  lemma MapsSnoc(template: string, cs: seq<ConditionEntry>, c: ConditionEntry)
    ensures PagesFor(template, cs + [c]) == PagesFor(template, cs) + [PageOf(template, c)]
    ensures CardsFor(cs + [c]) == CardsFor(cs) + [CardOf(c)]
  {
    assert forall k :: 0 <= k < |cs| ==> (cs + [c])[k] == cs[k];
  }

  /** The five `card +=` steps build Card. */
  lemma CardText(conditionName: string, preview: string)
    ensures "<a href=\"" + conditionName + ".html\" class=\"condition-card\">\n"
      + "<h3>" + conditionName + "</h3>\n"
      + "<p>" + preview + "</p>\n"
      + "<span class=\"arrow\">View Details \U{2192}</span>\n"
      + "</a>\n"
      == Card(conditionName, preview)
  {
    CardFirstLine(conditionName);
  }

  /** The first line of the card as written in the f-string. */
  lemma CardFirstLine(conditionName: string)
    ensures "<a href=\"" + conditionName + ".html\" class=\"condition-card\">\n"
      == "<a href=\"" + PageFileName(conditionName) + CardLinkEnd
  {
  }

  /**
   * The build of `main` (lines 185-195): the condition pages are generated;
   * if the joined cards are blank after `strip()`, the build stops with
   * NoConditionsFound, otherwise the index page gets the cards. It stops
   * exactly when no subdirectory has a `description.md`.
   */
  method Build(conditionTemplate: string, indexTemplate: string, entries: seq<ConditionEntry>)
    returns (pages: seq<Page>, index: Result<Page, BuildError>)
    ensures pages == PagesFor(conditionTemplate, Described(Conditions(entries)))
    ensures index.Failure? <==>
      forall k :: 0 <= k < |entries| ==> !(IsDirectory(entries[k]) && HasDescription(entries[k]))
    ensures index.Failure? ==> pages == []
    ensures index.Success? ==>
      index.value == Page(IndexFileName, IndexPage(indexTemplate, Join(CardsFor(Described(Conditions(entries))), "\n")))
  {
    var cards;
    pages, cards := GenerateConditionPages(conditionTemplate, entries);
    CardsBlankIffNoDescribedCondition(entries);
    if Strip(cards) == [] {
      return pages, Failure(NoConditionsFound);
    }
    var html := IndexPage(indexTemplate, cards);
    index := Success(Page(IndexFileName, html));
  }

  /**
   * The described conditions are exactly the subdirectories with a
   * `description.md`, each as often as it occurs among the entries.
   */
  lemma OneCardPerDescribedCondition(entries: seq<ConditionEntry>)
    ensures |CardsFor(Described(Conditions(entries)))| == |Described(Conditions(entries))|
    ensures forall x ::
      multiset(Described(Conditions(entries)))[x] == if IsDirectory(x) && HasDescription(x) then multiset(entries)[x] else 0
  {
    var dirs := Filter(entries, IsDirectory);
    assert multiset(Conditions(entries)) == multiset(dirs);
  }

  /**
   * The pages and the cards come in ascending order of condition name, and
   * the k-th card links to the k-th page and shows the k-th name.
   */
  lemma {:induction false} CardsFollowNameOrder(template: string, entries: seq<ConditionEntry>)
    ensures SortedBy(Described(Conditions(entries)), NameOf)
    ensures var d := Described(Conditions(entries));
      var pages, cards := PagesFor(template, d), CardsFor(d);
      |pages| == |cards| == |d| &&
      forall k :: 0 <= k < |d| ==> (
        pages[k].fileName == PageFileName(d[k].name) &&
        "<a href=\"" + pages[k].fileName + CardLinkEnd <= cards[k] &&
        Contains(cards[k], "<h3>" + d[k].name + "</h3>\n"))
  {
    var d := Described(Conditions(entries));
    FilterKeepsSorted(Conditions(entries), HasDescription, NameOf);
    forall k | 0 <= k < |d|
      ensures "<a href=\"" + PageFileName(d[k].name) + CardLinkEnd <= CardsFor(d)[k]
      ensures Contains(CardsFor(d)[k], "<h3>" + d[k].name + "</h3>\n")
    {
      CardShape(d[k].name, PreviewOf(DescriptionLines(d[k]), DefaultMaxChars));
    }
  }

  /** Each card shows the preview of its condition's description, at most 150 characters long. */
  lemma CardsShowPreviews(entries: seq<ConditionEntry>)
    ensures var d := Described(Conditions(entries));
      forall k :: 0 <= k < |d| ==> (
        var preview := PreviewOf(DescriptionLines(d[k]), DefaultMaxChars);
        |preview| <= 150 && Contains(CardsFor(d)[k], "<p>" + preview + "</p>\n"))
  {
    var d := Described(Conditions(entries));
    forall k | 0 <= k < |d|
      ensures Contains(CardsFor(d)[k], "<p>" + PreviewOf(DescriptionLines(d[k]), DefaultMaxChars) + "</p>\n")
    {
      CardShape(d[k].name, PreviewOf(DescriptionLines(d[k]), DefaultMaxChars));
    }
  }

  /**
   * The joined cards are blank (whitespace only, so that `strip()` gives "")
   * exactly when no subdirectory has a `description.md`.
   */
  lemma CardsBlankIffNoDescribedCondition(entries: seq<ConditionEntry>)
    ensures AllSpace(Join(CardsFor(Described(Conditions(entries))), "\n")) <==>
      forall k :: 0 <= k < |entries| ==> !(IsDirectory(entries[k]) && HasDescription(entries[k]))
  {
    var d := Described(Conditions(entries));
    var cards := CardsFor(d);
    forall k | 0 <= k < |cards| ensures cards[k] != [] && !IsSpace(cards[k][0]) {
      CardShape(d[k].name, PreviewOf(DescriptionLines(d[k]), DefaultMaxChars));
    }
    JoinAllSpaceIffEmpty(cards, "\n");
    OneCardPerDescribedCondition(entries);
    if d != [] {
      assert multiset(d)[d[0]] > 0;
      assert d[0] in multiset(entries);
      var k :| 0 <= k < |entries| && entries[k] == d[0];
    } else {
      forall k | 0 <= k < |entries| ensures !(IsDirectory(entries[k]) && HasDescription(entries[k])) {
        assert multiset(d)[entries[k]] == 0;
        assert entries[k] in multiset(entries);
      }
    }
  }
}
