/** Stage 1 (parser.py): turn the job cards of a saved search page into job
    records, keep those with a title, and drop repeated links.

    The HTML tree is abstracted away. A card is what the field lookups of
    `get_job_data` can find in one `li` element: its first title anchor (text
    and optional `href`), and the optional texts of its company-name and
    text-location elements. The anchors found in the document are given in
    document order, each as the card (`li` ancestor) it sits in, or `None`
    when it has none. */
module Extractor {
  import opened Wrappers
  import opened Text

  /** The sentinel the scraper writes for a field it could not find. */
  const NOT_AVAILABLE: string := "N/A"

  /** The origin put in front of site-relative links. */
  const SITE_ORIGIN: string := "https://in.indeed.com"

  /** The first `a.jcs-JobTitle` element of a card. */
  datatype TitleAnchor = TitleAnchor(text: string, href: Option<string>)

  /** One `li` job card, as far as the field lookups can see it. */
  datatype JobCard = JobCard(
    titleAnchor: Option<TitleAnchor>,
    companyName: Option<string>,
    textLocation: Option<string>)

  /** One scraped posting. `link` is `None` when the anchor had no `href`. */
  datatype JobRecord = JobRecord(title: string, company: string, location: string, link: Option<string>)

  /** The `href` as stored: a non-empty `href` that starts with '/' gets the
      site origin in front; any other value, absent ones included, is kept. */
  function NormalizeLink(href: Option<string>): (link: Option<string>)
    ensures href.None? ==> link.None?
    ensures href.Some? && StartsWith(href.value, "/") ==> link == Some(SITE_ORIGIN + href.value)
    ensures href.Some? && !StartsWith(href.value, "/") ==> link == href
  {
    match href
    case None => None
    case Some(h) => if h != [] && h[0] == '/' then Some(SITE_ORIGIN + h) else Some(h)
  }

  /** A link that has been normalized is left alone by a second normalization. */
  lemma NormalizeLinkIdempotent(href: Option<string>)
    ensures NormalizeLink(NormalizeLink(href)) == NormalizeLink(href)
  {
    if href.Some? && StartsWith(href.value, "/") {
      assert (SITE_ORIGIN + href.value)[0] == 'h';
    }
  }

  /** The stripped text of an optional element, or the sentinel. */
  function TextOrSentinel(element: Option<string>): string
  {
    match element
    case None => NOT_AVAILABLE
    case Some(t) => Strip(t)
  }

  /** `get_job_data`: each field is looked up on its own and falls back to
      the sentinel on its own. */
  function GetJobData(card: JobCard): JobRecord
  {
    var (title, link) :=
      match card.titleAnchor
      case None => (NOT_AVAILABLE, Some(NOT_AVAILABLE))
      case Some(a) => (Strip(a.text), NormalizeLink(a.href));
    JobRecord(title, TextOrSentinel(card.companyName), TextOrSentinel(card.textLocation), link)
  }

  /** A card without a title anchor gets the sentinel as title and as link;
      with one, the title is the anchor's stripped text and the link its
      normalized `href` (so a missing `href` gives no link, not the sentinel).
      Company and location are the stripped texts of their elements, or the
      sentinel when the element is absent. */
  lemma GetJobDataSpec(card: JobCard)
    ensures var job := GetJobData(card);
      && (card.titleAnchor.None? ==> job.title == NOT_AVAILABLE && job.link == Some(NOT_AVAILABLE))
      && (card.titleAnchor.Some? ==>
            job.title == Strip(card.titleAnchor.value.text) && job.link == NormalizeLink(card.titleAnchor.value.href))
      && (card.titleAnchor.Some? && card.titleAnchor.value.href.None? ==> job.link.None?)
      && (card.companyName.None? ==> job.company == NOT_AVAILABLE)
      && (card.companyName.Some? ==> job.company == Strip(card.companyName.value))
      && (card.textLocation.None? ==> job.location == NOT_AVAILABLE)
      && (card.textLocation.Some? ==> job.location == Strip(card.textLocation.value))
  {
  }

  /** A missing company or location never changes the title or the link. */
  lemma FieldsIndependent(c1: JobCard, c2: JobCard)
    requires c1.titleAnchor == c2.titleAnchor
    ensures GetJobData(c1).title == GetJobData(c2).title
    ensures GetJobData(c1).link == GetJobData(c2).link
  {
  }

  /** What one anchor contributes to the scraped list: nothing without an
      `li` card, nothing when the card's title is the sentinel, else its record. */
  function FromAnchor(card: Option<JobCard>): (jobs: seq<JobRecord>)
    ensures |jobs| <= 1
    ensures forall j :: j in jobs ==> j.title != NOT_AVAILABLE
  {
    if card.Some? && GetJobData(card.value).title != NOT_AVAILABLE then [GetJobData(card.value)] else []
  }

  /** The records the loop of `parse_local_html` collects, in document order. */
  function ScrapedJobs(cards: seq<Option<JobCard>>): (jobs: seq<JobRecord>)
    ensures |jobs| <= |cards|
    ensures forall j :: j in jobs ==> j.title != NOT_AVAILABLE
  {
    if cards == [] then []
    else ScrapedJobs(cards[..|cards| - 1]) + FromAnchor(cards[|cards| - 1])
  }

  /** Scraping a document in two parts scrapes each part in turn: the result
      keeps document order, anchor by anchor. */
  lemma {:induction false} ScrapedJobsAppend(a: seq<Option<JobCard>>, b: seq<Option<JobCard>>)
    ensures ScrapedJobs(a + b) == ScrapedJobs(a) + ScrapedJobs(b)
    decreases |b|
  {
    if b == [] {
      assert a + b == a;
    } else {
      var b' := b[..|b| - 1];
      assert (a + b)[..|a + b| - 1] == a + b';
      ScrapedJobsAppend(a, b');
    }
  }

  /** A record is scraped exactly when some anchor contributes it. */
  lemma {:induction false} ScrapedJobsMember(cards: seq<Option<JobCard>>, job: JobRecord)
    ensures job in ScrapedJobs(cards) <==> exists i :: 0 <= i < |cards| && job in FromAnchor(cards[i])
    decreases |cards|
  {
    if cards != [] {
      var init, last := cards[..|cards| - 1], cards[|cards| - 1];
      ScrapedJobsMember(init, job);
      var tail := FromAnchor(last);
      assert ScrapedJobs(cards) == ScrapedJobs(init) + tail;
      if job in ScrapedJobs(init) {
        var i :| 0 <= i < |init| && job in FromAnchor(init[i]);
        assert cards[i] == init[i];
      } else if job in tail {
        assert job in FromAnchor(cards[|cards| - 1]);
      }
      if i :| 0 <= i < |cards| && job in FromAnchor(cards[i]) {
        if i < |init| {
          assert cards[i] == init[i];
        } else {
          assert job in tail;
        }
      }
    }
  }

  /** `parse_local_html` after the file has been read: no anchors at all gives
      `None`; otherwise the loop appends, anchor by anchor, the record of each
      anchor that has an `li` card and a title other than the sentinel. */
  method ParseLocalHtml(cards: seq<Option<JobCard>>) returns (result: Option<seq<JobRecord>>)
    ensures result.None? <==> cards == []
    ensures result.Some? ==> result.value == ScrapedJobs(cards)
  {
    if cards == [] {
      return None;
    }
    var allJobs: seq<JobRecord> := [];
    for i := 0 to |cards|
      invariant allJobs == ScrapedJobs(cards[..i])
    {
      assert cards[..i + 1][..i] == cards[..i];
      var card := cards[i];
      if card.Some? {
        var jobData := GetJobData(card.value);
        if jobData.title != NOT_AVAILABLE {
          allJobs := allJobs + [jobData];
        }
      }
    }
    assert cards[..|cards|] == cards;
    return Some(allJobs);
  }

  /** The links carried by a list of records. */
  function Links(jobs: seq<JobRecord>): set<Option<string>>
  {
    set j | j in jobs :: j.link
  }

  /** No two records share a link. */
  predicate DistinctLinks(jobs: seq<JobRecord>)
  {
    forall i, j :: 0 <= i < j < |jobs| ==> jobs[i].link != jobs[j].link
  }

  /** Record `i` is the first one in `jobs` that carries its link. */
  predicate FirstWithLink(jobs: seq<JobRecord>, i: int)
    requires 0 <= i < |jobs|
  {
    forall j :: 0 <= j < i ==> jobs[j].link != jobs[i].link
  }

  /** `drop_duplicates(subset='link', keep='first')`: a record survives when no
      earlier record carries the same link (two absent links count as equal). */
  function FirstByLink(jobs: seq<JobRecord>): seq<JobRecord>
  {
    if jobs == [] then []
    else
      var init := jobs[..|jobs| - 1];
      var last := jobs[|jobs| - 1];
      if last.link in Links(init) then FirstByLink(init) else FirstByLink(init) + [last]
  }

  /** The positions of the records `FirstByLink` keeps. */
  ghost function KeptPositions(jobs: seq<JobRecord>): seq<int>
  {
    if jobs == [] then []
    else
      var init := jobs[..|jobs| - 1];
      if jobs[|jobs| - 1].link in Links(init) then KeptPositions(init) else KeptPositions(init) + [|jobs| - 1]
  }

  lemma LinksSnoc(jobs: seq<JobRecord>, x: JobRecord)
    ensures Links(jobs + [x]) == Links(jobs) + {x.link}
  {
    assert forall j :: j in jobs + [x] <==> j in jobs || j == x;
  }

  /** The deduplicated list keeps, in their original order, exactly the
      records that are the first to carry their link; it carries every link
      of the input, and each only once. */
  lemma {:induction false} FirstByLinkSpec(jobs: seq<JobRecord>)
    ensures var r, pos := FirstByLink(jobs), KeptPositions(jobs);
      && |pos| == |r| <= |jobs|
      && (forall k :: 0 <= k < |pos| ==> 0 <= pos[k] < |jobs| && r[k] == jobs[pos[k]] && FirstWithLink(jobs, pos[k]))
      && (forall k, l :: 0 <= k < l < |pos| ==> pos[k] < pos[l])
      && DistinctLinks(r)
      && Links(r) == Links(jobs)
    decreases |jobs|
  {
    if jobs != [] {
      var init := jobs[..|jobs| - 1];
      var last := jobs[|jobs| - 1];
      assert jobs == init + [last];
      FirstByLinkSpec(init);
      LinksSnoc(init, last);
      var r0, pos0 := FirstByLink(init), KeptPositions(init);
      forall k | 0 <= k < |pos0|
        ensures FirstWithLink(jobs, pos0[k])
      {
        assert FirstWithLink(init, pos0[k]);
      }
      if last.link !in Links(init) {
        LinksSnoc(r0, last);
        assert last.link !in Links(r0);
        forall j | 0 <= j < |jobs| - 1
          ensures jobs[j].link != last.link
        {
          assert jobs[j] in init;
        }
        forall k | 0 <= k < |r0|
          ensures r0[k].link != last.link
        {
          assert r0[k] in r0;
        }
      }
    }
  }

  /** A list whose links are already distinct passes through unchanged. */
  lemma {:induction false} FirstByLinkDistinct(jobs: seq<JobRecord>)
    requires DistinctLinks(jobs)
    ensures FirstByLink(jobs) == jobs
    decreases |jobs|
  {
    if jobs != [] {
      var init := jobs[..|jobs| - 1];
      var last := jobs[|jobs| - 1];
      FirstByLinkDistinct(init);
      assert init + [last] == jobs;
    }
  }

  /** Deduplicating twice is deduplicating once. */
  lemma FirstByLinkIdempotent(jobs: seq<JobRecord>)
    ensures FirstByLink(FirstByLink(jobs)) == FirstByLink(jobs)
  {
    FirstByLinkSpec(jobs);
    FirstByLinkDistinct(FirstByLink(jobs));
  }

  /** The in-place `drop_duplicates` on the link column, as a scan that
      remembers the links it has seen. */
  method DropDuplicateLinks(jobs: seq<JobRecord>) returns (kept: seq<JobRecord>)
    ensures kept == FirstByLink(jobs)
  {
    kept := [];
    var seen: set<Option<string>> := {};
    for i := 0 to |jobs|
      invariant kept == FirstByLink(jobs[..i])
      invariant seen == Links(jobs[..i])
    {
      assert jobs[..i + 1] == jobs[..i] + [jobs[i]];
      LinksSnoc(jobs[..i], jobs[i]);
      if jobs[i].link !in seen {
        kept := kept + [jobs[i]];
      }
      seen := seen + {jobs[i].link};
    }
    assert jobs[..|jobs|] == jobs;
  }

  /** The `__main__` block of parser.py: scrape, and when that gave a
      non-empty list, deduplicate it by link; `None` means nothing is saved. */
  function RunExtractor(cards: seq<Option<JobCard>>): (saved: Option<seq<JobRecord>>)
    ensures saved.Some? ==>
      && 0 < |saved.value| <= |cards|
      && (forall j :: j in saved.value ==> j.title != NOT_AVAILABLE)
      && DistinctLinks(saved.value)
    ensures saved.None? <==> ScrapedJobs(cards) == []
  {
    var scraped := ScrapedJobs(cards);
    if scraped == [] then None
    else
      FirstByLinkSpec(scraped);
      assert scraped[0].link in Links(scraped);
      Some(FirstByLink(scraped))
  }

  /** Two records that carry the same link: only the first in document
      order is kept, whatever the second one's title. */
  lemma SameLinkKeepsFirst(j1: JobRecord, j2: JobRecord)
    requires j1.link == j2.link
    ensures FirstByLink([j1, j2]) == [j1]
  {
    assert [j1, j2][..1] == [j1];
    assert [j1][..0] == [];
    assert FirstByLink([j1]) == [j1];
    assert j2.link in Links([j1]);
  }

  /** Fields are read from the card's first title anchor, not from the anchor
      that led to the card: two anchors in one card give the same record
      twice, and deduplication then keeps one. */
  lemma SharedCardTwice(card: JobCard)
    requires GetJobData(card).title != NOT_AVAILABLE
    ensures ScrapedJobs([Some(card), Some(card)]) == [GetJobData(card), GetJobData(card)]
    ensures FirstByLink(ScrapedJobs([Some(card), Some(card)])) == [GetJobData(card)]
  {
    assert [Some(card), Some(card)][..1] == [Some(card)];
    assert [Some(card)][..0] == [];
    SameLinkKeepsFirst(GetJobData(card), GetJobData(card));
  }
}
