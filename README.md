# Job-market analyser, modelled in Dafny

The analyser is a three-step batch pipeline over one saved job-search page:

1. `parser.py` turns the page's job cards into records (title, company,
   location, link), keeps those with a title, and drops repeated links.
2. `analyzer.py` tags every title with the skills of a fixed 33-token
   vocabulary that it mentions, and keeps the jobs with at least one skill.
3. `app.py` shows a dashboard:
   - the number of jobs, distinct skills and distinct companies;
   - the ten most frequent skills and the ten companies with most openings;
   - a multiselect of skills, pre-filled with python/sql/tableau when present;
   - the listing of the jobs that carry every selected skill.

This project models the logic under the library glue of those three files
and proves what it promises. The modules are:

- `Wrappers`: `Option`.
- `Text`: the Python string operations the pipeline relies on, on ASCII. These are `lower`, `strip`, the substring test, `startswith`/`endswith`, and the code-point order `sorted` uses.
- `Extractor` (parser.py): field extraction from an abstract job card, the scraping loop, and keep-first deduplication by link.
  - A card is what the field lookups can see in one `li` element: its first title anchor (text and optional `href`), and its optional company-name and location texts.
  - The anchors of the document are given in document order, each as its card, or `None` when it has no `li` ancestor.
- `Analyzer` (analyzer.py): the skill tagger and the non-empty-skills row filter.
  - The method `ExtractSkillsFromTitle` keeps the source's loop and its `continue`.
  - It is proved equal to the specification function `SkillsOf`, about which the membership lemmas are stated.
- `Ranking` (app.py): `Counter.most_common(n)`.
  - It is built as the distinct values in first-encounter order, each with its count, sorted by count descending.
  - Ties keep their first-encounter order, which is what Python's stable sort over a `Counter` gives.
- `Dashboard` (app.py): the flattened skill list, the metrics, the top-10 tables, the sorted filter options, the default selection, the superset row filter, and the three states of the page.
- `SkillCodec` (app.py/analyzer.py): the text form of a skill list in the `skills` column.
  - The encoder writes `['a', 'b']`. The decoder accepts exactly what the encoder writes.
  - Both round trips are proved for plain tokens, and every vocabulary token is plain.
  - This takes the place of the `eval` call that reads the column back.

The parser's loop and its deduplication are methods with loop invariants, proved equal to specification functions. Each method keeps the shape of the source:

- `ParseLocalHtml` appends to a list.
- `DropDuplicateLinks` keeps a set of links already seen.

## Model

| member | source | states |
|---|---|---|
| Text.Lower | analyzer.py:26 | the lowered title has the same length, and each character is the ASCII-lowered character at the same place |
| Text.LowerIdempotent | analyzer.py:26 | lowering an already lowered title changes nothing |
| Text.StripSpec | parser.py:8 | `strip` keeps a contiguous slice of the text, every character before and after it is white space, and the slice neither starts nor ends with white space |
| Text.StripIdempotent | parser.py:8 | stripping a stripped text changes nothing |
| Text.ContainsIff | analyzer.py:28 | the substring scan succeeds exactly when the token occurs at some position of the lowered title |
| Text.StrLessTotal | app.py:48 | any two different strings are ordered one way or the other by the order `sorted` uses |
| Text.StrLessTransitive | app.py:48 | that order is transitive |
| Text.StrLessIrreflexive | app.py:48 | no string is below itself |
| Extractor.NormalizeLink | parser.py:9-13 | a missing `href` stays missing; an `href` starting with '/' gets `https://in.indeed.com` in front; any other `href`, the empty one included, is kept as is |
| Extractor.NormalizeLinkIdempotent | parser.py:9-13 | a normalized link is not changed by normalizing it again |
| Extractor.GetJobDataSpec | parser.py:5-29 | no title anchor gives title and link "N/A". Otherwise the title is the stripped anchor text and the link the normalized `href`, and a missing `href` gives no link rather than "N/A". Company and location are the stripped element texts, or "N/A" when the element is absent |
| Extractor.FieldsIndependent | parser.py:17-27 | cards with the same title anchor get the same title and link whatever their company and location elements |
| Extractor.FromAnchor | parser.py:48-52 | an anchor contributes at most one record, and never one titled "N/A" |
| Extractor.ScrapedJobs | parser.py:47-54 | the collected list is no longer than the anchor list, and no record in it is titled "N/A" |
| Extractor.ScrapedJobsAppend | parser.py:47-54 | scraping two halves of the anchor list gives the two results one after the other, so document order is kept |
| Extractor.ScrapedJobsMember | parser.py:47-54 | a record is collected exactly when some anchor has a card whose record it is and whose title is not "N/A" |
| Extractor.ParseLocalHtml | parser.py:41-54 | no anchors gives `None`, not an empty list; otherwise the loop returns exactly the scraped records |
| Extractor.FirstByLinkSpec | parser.py:61 | the kept records are the input records at strictly increasing positions, and each is the first with its link. Links are pairwise distinct, every input link is kept, and the result is no longer than the input |
| Extractor.FirstByLinkDistinct | parser.py:61 | a list whose links are already distinct is returned unchanged |
| Extractor.FirstByLinkIdempotent | parser.py:61 | deduplicating twice is deduplicating once |
| Extractor.DropDuplicateLinks | parser.py:61 | the loop with a set of seen links returns exactly the keep-first deduplication |
| Extractor.SameLinkKeepsFirst | parser.py:61 | of two records with the same link only the first is kept |
| Extractor.RunExtractor | parser.py:56-61 | nothing is saved exactly when scraping found no record. Otherwise the saved list is non-empty, no longer than the anchor list, free of "N/A" titles and has distinct links |
| Extractor.SharedCardTwice | parser.py:7-9 | two anchors in one card give the same record twice (fields come from the card's first anchor), and deduplication keeps one |
| Analyzer.ExtractSkillsFromTitle | analyzer.py:23-32 | the loop returns exactly the tags of the title; every tag is a vocabulary token and "powerbi" is never returned |
| Analyzer.FoundInMember | analyzer.py:27-31 | a tag is found exactly when some vocabulary token matches and canonicalizes to it |
| Analyzer.SkillsOfMember | analyzer.py:5-31 | a token other than "powerbi" is a tag exactly when it matches; "power bi" is also a tag when "powerbi" matches |
| Analyzer.SkillsInVocabulary | analyzer.py:27-31 | every tag is in the vocabulary and none is "powerbi" |
| Analyzer.PlainTokenMatch | analyzer.py:27-28 | every token other than "r", "powerbi" and "power bi" is a tag exactly when it is a substring of the lowered title |
| Analyzer.PowerBiMatch | analyzer.py:27-31 | "power bi" is a tag exactly when the lowered title contains "power bi" or "powerbi" |
| Analyzer.StandaloneRContainsR | analyzer.py:28-29 | each of the three standalone tests implies the substring test for "r" |
| Analyzer.RMatch | analyzer.py:28-30 | "r" is a tag exactly when the lowered title contains " r ", ends with " r" or starts with "r " |
| Analyzer.EmptyTitle | analyzer.py:25-32 | the empty title has no tags |
| Analyzer.CaseInsensitive | analyzer.py:26 | a title and its lowered form have the same tags |
| Analyzer.RDeveloper | analyzer.py:29-30 | "R Developer" is tagged "r" |
| Analyzer.NoSpaceNoR | analyzer.py:29-30 | a title without a space is never tagged "r" |
| Analyzer.DirectorHasNoR | analyzer.py:29-30 | "Director", "R&D" and the bare title "r" are not tagged "r" |
| Analyzer.PowerBiPrefix | analyzer.py:31 | a title starting with "power bi" in any case is tagged "power bi" and never "powerbi" |
| Analyzer.PowerBiAnalyst | analyzer.py:31 | "Power BI Analyst" is tagged "power bi" and not "powerbi" |
| Analyzer.TagOne | analyzer.py:38-39 | one job yields at most one tagged row |
| Analyzer.TagJobs | analyzer.py:38-39 | the kept rows are input jobs, no more of them than the input, each with a non-empty tag set equal to its title's tags |
| Analyzer.TagJobsAppend | analyzer.py:38-39 | filtering two halves gives the two results one after the other, so the original order is kept |
| Analyzer.TagJobsSingle | analyzer.py:38-39 | one job survives exactly when its title has a tag |
| Analyzer.TagJobsComplete | analyzer.py:38-39 | every job whose title has a tag is in the output |
| Ranking.FirstIndexSpec | app.py:36-37 | the first-encounter index of a present value is the position of its first occurrence |
| Ranking.KeysSpec | app.py:36 | the counter's keys are exactly the values present, each once, in the order they are first met |
| Ranking.KeysCount | app.py:32 | there are as many keys as distinct values, and no more than values |
| Ranking.TalliesSpec | app.py:36 | the unsorted counter pairs every present value with its number of occurrences |
| Ranking.InsertSpec | app.py:37 | inserting a pair into a ranked list keeps it ranked and adds exactly that pair |
| Ranking.SortSpec | app.py:37 | sorting pairs by count descending, ties by first encounter, gives a ranked permutation |
| Ranking.RankAllSpec | app.py:37 | the full ranking lists every present value once with its true count, ranked by count then first encounter |
| Ranking.MostCommonSpec | app.py:36-37 | `most_common(n)` has min(n, distinct values) pairs of distinct values with true counts. Counts do not increase, ties are in first-encounter order, and no omitted value outnumbers a listed one |
| Dashboard.AllSkills | app.py:31 | the flattened list is as long as the sum of the rows' skill-list lengths |
| Dashboard.AllSkillsAppend | app.py:31 | flattening two halves gives the two flattenings one after the other, so row order is kept |
| Dashboard.AllSkillsMember | app.py:31 | a skill is in the flattened list exactly when some row lists it |
| Dashboard.UniqueSkillsBound | app.py:32 | the unique-skills metric never exceeds the number of skill tags |
| Dashboard.TopSkillsSpec | app.py:36-37 | at most 10 rows of distinct skills with their true counts. Counts do not increase, ties are in first-encounter order, and no omitted skill is more frequent than a listed one |
| Dashboard.TopCompaniesSpec | app.py:43 | at most 10 rows of distinct companies with their true opening counts, in non-increasing order |
| Dashboard.InsertSortedSpec | app.py:48 | inserting a new string into an ascending list keeps it ascending and adds exactly that string |
| Dashboard.SortStringsSpec | app.py:48 | sorting a duplicate-free list gives a strictly ascending permutation of it |
| Dashboard.SkillOptionsSpec | app.py:48 | the options are strictly ascending, are exactly the skills present, and are as many as the unique-skills metric |
| Dashboard.DefaultSkillsSpec | app.py:49 | the default selection is "python", "sql", "tableau" in that order, each only when it is an option |
| Dashboard.RowsWithAll | app.py:53 | the filtered rows are input rows, no more of them than the input, each carrying every selected skill |
| Dashboard.RowsWithAllAppend | app.py:53 | filtering two halves gives the two results one after the other, so row order is kept |
| Dashboard.RowsWithAllSingle | app.py:53 | one row passes exactly when its skills include every selected skill |
| Dashboard.RowsWithAllComplete | app.py:53 | every row carrying all selected skills is shown |
| Dashboard.RowsWithAllMonotone | app.py:53 | a larger selection never shows more rows |
| Dashboard.FilterBySkillsBounds | app.py:52-57 | the shown count never exceeds the total, and adding a skill to the selection never raises it |
| Dashboard.SupersetExample | app.py:52-55 | with rows tagged {python, sql}, {python} and {sql, tableau}, selecting python and sql shows only the first |
| Dashboard.Render | app.py:21-57 | a missing file gives the error page and an empty table the warning page. Otherwise the page shows the total, a unique-skills figure equal to the number of options, at most 10 rows per top table, defaults drawn from the options, and no more shown rows than jobs |
| SkillCodec.ReadToken | app.py:13 | a token read up to its closing quote has no quote, and the text is the token, the quote, then the rest |
| SkillCodec.DecodeEncode | app.py:13 | decoding the text of a list of plain tokens gives the list back |
| SkillCodec.EncodeDecode | app.py:13 | any text the decoder accepts is the encoding of the list it returns, and no decoded token contains a quote |
| SkillCodec.SkillListsRoundTrip | analyzer.py:41 | every list of vocabulary tokens survives being written to the `skills` column and read back |

## Left out

- HTML parsing and search (`find_all`, `find_parent`, `find`) are not modelled. The document is given as the sequence of cards the anchors sit in, and each card as the optional fields the lookups would find.
- File reading and writing, the handling of `FileNotFoundError`, and the printed diagnostics are not modelled. A missing file is an `Option` parameter where its effect is visible (the dashboard's error page).
- pandas' CSV round trip and its missing-value semantics are not modelled. `read_csv` turns the text "N/A" into a missing value, which `nunique` and `value_counts` skip; here titles and companies stay plain strings. Also left out are `astype(str).fillna('')` on titles and the `isinstance(x, str)` guard before decoding skills.
- `eval` is not modelled as code evaluation. SkillCodec only reads the list text the encoder writes, for plain tokens (printable ASCII without quote or backslash), which covers the whole vocabulary. CSV quoting of that text is not modelled.
- Streamlit and Plotly rendering, the chart's category order and `st.cache_data` caching are not modelled. The user's multiselect choice is a parameter of `Dashboard.Render`.
- Text.Lower: ASCII only. Unicode case mapping is not modelled.
- Text.StripSpec: ASCII white space only. Unicode white space is not modelled.
- Dashboard.TopCompaniesSpec: states only the bound, the true counts, distinctness and non-increasing order. The order pandas gives companies with equal counts is library-defined. The model uses the same first-encounter tie order as for skills and does not claim it.
- Analyzer.TagJobs: the tags of a title are a set. `list(set(...))` has no defined order, so the order of a row's skill list is not modelled.
- Analyzer.Canonical: `replace('powerbi', 'power bi')` is modelled on vocabulary tokens only, where "powerbi" is the only token it changes.
