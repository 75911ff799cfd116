/**
 * The deterministic part of the job scraper: turning search-result cards
 * into job records, deriving each record's id, filtering by keyword, and
 * the dedupe-and-record step against the persisted set of ids already sent.
 *
 * A card is the outcome of the per-card selector lookups: each element may
 * be missing, and a present element contributes its stripped text (for the
 * link, its `href` attribute).
 */
module Scraper {
  import opened Wrappers
  import opened Strings
  import opened Lists

  /** One listing card: `.title`, `.location`, `.price` and the `href` of `a[href]`. */
  datatype Card = Card(
    title: Option<string>,
    location: Option<string>,
    price: Option<string>,
    href: Option<string>)

  /** One job record; the site's price text is stored as the company. */
  datatype Job = Job(title: string, company: string, location: string, url: string, id: string)

  /** The default for a missing title or location element. */
  const Unknown: string := "Unknown"

  /** The page suffix deleted from the last URL segment. */
  const HtmlSuffix: string := ".html"

  // ---------------------------------------------------------------------
  // Record building and id derivation (parse_jobs)
  // ---------------------------------------------------------------------

  /** `url.split("/")[-1].replace(".html", "")`. */
  function UrlId(url: string): string {
    Replace(LastPiece(url, '/'), HtmlSuffix, "")
  }

  /** `f"{title}_{location}".lower().replace(" ", "_")`. */
  function FallbackId(title: string, location: string): string {
    Replace(Lower(title + "_" + location), " ", "_")
  }

  /** The id of a record: from the URL when there is one, otherwise from title and location. */
  function JobId(url: string, title: string, location: string): string {
    if url != [] then UrlId(url) else FallbackId(title, location)
  }

  /** The record `parse_jobs` builds for one card. */
  function ParseCard(c: Card): Job {
    var title := c.title.GetOr(Unknown);
    var location := c.location.GetOr(Unknown);
    var url := c.href.GetOr("");
    Job(title, c.price.GetOr(""), location, url, JobId(url, title, location))
  }

  /** The records for a page of cards, one per card, in order. */
  function ParseAll(cards: seq<Card>): seq<Job> {
    seq(|cards|, i requires 0 <= i < |cards| => ParseCard(cards[i]))
  }

  /**
   * `parse_jobs`: one record per card, in card order. Each record is first
   * built with a placeholder id, which is then overwritten.
   */
  method ParseJobs(cards: seq<Card>) returns (jobs: seq<Job>)
    ensures |jobs| == |cards|
    ensures forall i :: 0 <= i < |cards| ==> jobs[i] == ParseCard(cards[i])
  {
    jobs := [];
    for i := 0 to |cards|
      invariant |jobs| == i
      invariant forall k :: 0 <= k < i ==> jobs[k] == ParseCard(cards[k])
    {
      var card := cards[i];
      var job := Job(
        title := if card.title.Some? then card.title.value else Unknown,
        company := if card.price.Some? then card.price.value else "",
        location := if card.location.Some? then card.location.value else Unknown,
        url := if card.href.Some? then card.href.value else "",
        id := "");
      if job.url != [] {
        job := job.(id := UrlId(job.url));
      } else {
        job := job.(id := FallbackId(job.title, job.location));
      }
      jobs := jobs + [job];
    }
  }

  /** A missing element gives the fixed default; a present one gives its text. */
  lemma ParseCardDefaults(c: Card)
    ensures ParseCard(c).title == if c.title.None? then "Unknown" else c.title.value
    ensures ParseCard(c).location == if c.location.None? then "Unknown" else c.location.value
    ensures ParseCard(c).company == if c.price.None? then "" else c.price.value
    ensures ParseCard(c).url == if c.href.None? then "" else c.href.value
  {
  }

  /** With a URL, the id is the last path segment with `.html` deleted. */
  lemma {:induction false} IdFromLastSegment(c: Card, prefix: string, segment: string)
    requires c.href == Some(prefix + "/" + segment)
    requires '/' !in segment
    ensures ParseCard(c).id == Replace(segment, ".html", "")
  {
    LastPieceAfterSep(prefix, segment, '/');
  }

  /** A last segment in which `.html` does not occur is the id as it stands. */
  lemma {:induction false} IdOfPlainSegment(c: Card, prefix: string, segment: string)
    requires c.href == Some(prefix + "/" + segment)
    requires '/' !in segment && !Contains(segment, HtmlSuffix)
    ensures ParseCard(c).id == segment
  {
    IdFromLastSegment(c, prefix, segment);
    ReplaceAbsent(segment, HtmlSuffix, "");
  }

  /** A URL that ends with `/` gives the empty id. */
  lemma {:induction false} IdOfTrailingSlash(c: Card, url: string)
    requires c.href == Some(url) && url != [] && url[|url| - 1] == '/'
    ensures ParseCard(c).id == ""
  {
    LastPieceAfterTrailingSep(url, '/');
  }

  /**
   * Every `.html` in the last segment is deleted, not only a trailing one:
   * for a segment `name + ".html" + rest` whose `name` holds no `.`, the id
   * is `name` followed by `rest` with its own `.html`s deleted.
   */
  lemma {:induction false} IdDeletesEveryHtml(c: Card, prefix: string, name: string, rest: string)
    requires c.href == Some(prefix + "/" + name + ".html" + rest)
    requires '/' !in name && '/' !in rest && '.' !in name
    ensures ParseCard(c).id == name + Replace(rest, ".html", "")
  {
    var segment := name + ".html" + rest;
    assert prefix + "/" + segment == prefix + "/" + name + ".html" + rest;
    IdFromLastSegment(c, prefix, segment);
    assert segment == name + (".html" + rest);
    ReplaceSkipsPrefix(name, ".html" + rest, ".html", "");
    assert ".html" <= ".html" + rest;
    assert (".html" + rest)[|".html"|..] == rest;
  }

  /** The usual posting page `.../<number>.html` is identified by `<number>`. */
  lemma IdOfPostingPage(c: Card, prefix: string, name: string)
    requires c.href == Some(prefix + "/" + name + ".html")
    requires '/' !in name && '.' !in name
    ensures ParseCard(c).id == name
  {
    assert prefix + "/" + name + ".html" == prefix + "/" + name + ".html" + "";
    IdDeletesEveryHtml(c, prefix, name, "");
  }

  /** A URL's id never contains `/`. */
  lemma {:induction false} UrlIdHasNoSlash(url: string)
    ensures '/' !in UrlId(url)
  {
    LastPieceIsSuffix(url, '/');
    ReplaceNoNewChar(LastPiece(url, '/'), HtmlSuffix, "", '/');
  }

  /** `s.lower().replace(" ", "_")`, the folding applied to each part of a fallback id. */
  function Fold(s: string): string {
    Replace(Lower(s), " ", "_")
  }

  /** Replacing one character by another distributes over concatenation. */
  lemma {:induction false} ReplaceCharAppend(a: string, b: string, x: char, y: char)
    ensures Replace(a + b, [x], [y]) == Replace(a, [x], [y]) + Replace(b, [x], [y])
  {
    ReplaceCharAt(a + b, x, y);
    ReplaceCharAt(a, x, y);
    ReplaceCharAt(b, x, y);
    var l, r1, r2 := Replace(a + b, [x], [y]), Replace(a, [x], [y]), Replace(b, [x], [y]);
    forall i | 0 <= i < |l| ensures l[i] == (r1 + r2)[i] {
      if i >= |a| {
        assert (a + b)[i] == b[i - |a|];
      }
    }
  }

  /** Folding keeps the length and leaves no space and no upper-case ASCII letter. */
  lemma {:induction false} FoldShape(s: string)
    ensures |Fold(s)| == |s|
    ensures ' ' !in Fold(s)
    ensures forall i :: 0 <= i < |s| ==> !('A' <= Fold(s)[i] <= 'Z')
  {
    ReplaceCharAt(Lower(s), ' ', '_');
  }

  /** The fallback id folds the title and the location separately around `_`. */
  lemma {:induction false} FallbackIdParts(title: string, location: string)
    ensures FallbackId(title, location) == Fold(title) + "_" + Fold(location)
  {
    LowerAppend(title + "_", location);
    LowerAppend(title, "_");
    var lt, ll := Lower(title), Lower(location);
    assert Lower("_") == "_";
    assert Lower(title + "_" + location) == lt + "_" + ll;
    ReplaceCharAppend(lt + "_", ll, ' ', '_');
    ReplaceCharAppend(lt, "_", ' ', '_');
    assert Replace("_", " ", "_") == "_";
  }

  /**
   * Without a URL, the id is the folded title, `_`, and the folded location:
   * lower case, with no space left, and as long as the two joined by `_`.
   */
  lemma {:induction false} IdWithoutUrl(c: Card)
    requires c.href.None? || c.href == Some("")
    ensures var j := ParseCard(c);
      j.id == Fold(j.title) + "_" + Fold(j.location) &&
      |j.id| == |j.title| + 1 + |j.location| &&
      ' ' !in j.id &&
      forall i :: 0 <= i < |j.id| ==> !('A' <= j.id[i] <= 'Z')
  {
    var j := ParseCard(c);
    FallbackIdParts(j.title, j.location);
    FoldShape(j.title);
    FoldShape(j.location);
    var ft, fl := Fold(j.title), Fold(j.location);
    forall i | 0 <= i < |j.id| ensures !('A' <= j.id[i] <= 'Z') {
      if i < |ft| {
        assert j.id[i] == ft[i];
      } else if i > |ft| {
        assert j.id[i] == fl[i - |ft| - 1];
      }
    }
  }

  /**
   * Two cards without a URL whose titles and locations fold alike get the
   * same id, whatever else differs between them.
   */
  lemma FallbackIdsCollide(c1: Card, c2: Card)
    requires (c1.href.None? || c1.href == Some("")) && (c2.href.None? || c2.href == Some(""))
    requires Fold(ParseCard(c1).title) == Fold(ParseCard(c2).title)
    requires Fold(ParseCard(c1).location) == Fold(ParseCard(c2).location)
    ensures ParseCard(c1).id == ParseCard(c2).id
  {
    IdWithoutUrl(c1);
    IdWithoutUrl(c2);
  }

  // ---------------------------------------------------------------------
  // Keyword filter (filter_jobs)
  // ---------------------------------------------------------------------

  /** `any(kw.lower() in titleLower for kw in keywords)`. */
  function AnyKeyword(titleLower: string, keywords: seq<string>): (r: bool)
    ensures r <==> exists i :: 0 <= i < |keywords| && Contains(titleLower, Lower(keywords[i]))
    decreases |keywords|
  {
    if keywords == [] then false
    else
      assert forall i :: 1 <= i < |keywords| ==> keywords[i] == keywords[1..][i - 1];
      Contains(titleLower, Lower(keywords[0])) || AnyKeyword(titleLower, keywords[1..])
  }

  /** Some keyword, lower-cased, occurs in the lower-cased title. */
  predicate TitleMatches(job: Job, keywords: seq<string>) {
    AnyKeyword(Lower(job.title), keywords)
  }

  /** The keyword test as a function value. */
  function MatchesAny(keywords: seq<string>): Job -> bool {
    (j: Job) => TitleMatches(j, keywords)
  }

  /** The jobs whose title matches some keyword, in input order. */
  function Matching(jobs: seq<Job>, keywords: seq<string>): seq<Job> {
    Select(jobs, MatchesAny(keywords))
  }

  /** What `filter_jobs` returns: every job when there are no keywords, else the matching ones. */
  function KeywordFiltered(jobs: seq<Job>, keywords: seq<string>): seq<Job> {
    if keywords == [] then jobs else Matching(jobs, keywords)
  }

  /** `filter_jobs`: a loop that appends each job whose title matches. */
  method FilterJobs(jobs: seq<Job>, keywords: seq<string>) returns (filtered: seq<Job>)
    ensures filtered == KeywordFiltered(jobs, keywords)
  {
    if keywords == [] {
      return jobs;
    }
    filtered := [];
    for i := 0 to |jobs|
      invariant filtered == Matching(jobs[..i], keywords)
    {
      var job := jobs[i];
      var titleLower := Lower(job.title);
      if AnyKeyword(titleLower, keywords) {
        filtered := filtered + [job];
      }
      assert jobs[..i + 1][..i] == jobs[..i];
    }
    assert jobs[..|jobs|] == jobs;
  }

  /** No keywords: the filter is the identity. */
  lemma FilterWithoutKeywords(jobs: seq<Job>)
    ensures KeywordFiltered(jobs, []) == jobs
  {
  }

  /** The filter keeps exactly the jobs in which some keyword occurs, ignoring case. */
  lemma {:induction false} FilterKeepsExactlyMatches(jobs: seq<Job>, keywords: seq<string>, j: Job)
    requires keywords != []
    ensures j in KeywordFiltered(jobs, keywords) <==>
      j in jobs && exists i :: 0 <= i < |keywords| && Contains(Lower(j.title), Lower(keywords[i]))
  {
    SelectMember(jobs, MatchesAny(keywords), j);
  }

  /**
   * The filter keeps every copy of a matching job and no copy of another:
   * duplicate records in the page survive as often as they occur.
   */
  lemma {:induction false} FilterKeepsCopies(jobs: seq<Job>, keywords: seq<string>, j: Job)
    ensures multiset(KeywordFiltered(jobs, keywords))[j] ==
      if keywords == [] || exists i :: 0 <= i < |keywords| && Contains(Lower(j.title), Lower(keywords[i]))
      then multiset(jobs)[j] else 0
  {
    if keywords != [] {
      SelectCount(jobs, MatchesAny(keywords), j);
    }
  }

  /** The filter only deletes jobs; the ones it keeps stay in input order. */
  lemma {:induction false} FilterIsSubsequence(jobs: seq<Job>, keywords: seq<string>)
    ensures IsSubsequence(KeywordFiltered(jobs, keywords), jobs)
  {
    if keywords == [] {
      SubsequenceReflexive(jobs);
    } else {
      SelectIsSubsequence(jobs, MatchesAny(keywords));
    }
  }

  // ---------------------------------------------------------------------
  // Dedupe against the sent ids (scrape_jobs)
  // ---------------------------------------------------------------------

  /** The ids of a list of jobs. */
  function IdsOf(jobs: seq<Job>): set<string> {
    set j | j in jobs :: j.id
  }

  /** The test `j["id"] not in sent` as a function value. */
  function Unsent(sent: set<string>): Job -> bool {
    (j: Job) => j.id !in sent
  }

  /** `[j for j in filtered if j["id"] not in sent]`. */
  function NewJobs(filtered: seq<Job>, sent: set<string>): seq<Job> {
    Select(filtered, Unsent(sent))
  }

  /** A job is new exactly when it passed the filter and its id was not sent before. */
  lemma {:induction false} NewJobsExact(filtered: seq<Job>, sent: set<string>, j: Job)
    ensures j in NewJobs(filtered, sent) <==> j in filtered && j.id !in sent
  {
    SelectMember(filtered, Unsent(sent), j);
  }

  /** Every copy of an unsent job is new, and no copy of a sent one. */
  lemma {:induction false} NewJobsKeepCopies(filtered: seq<Job>, sent: set<string>, j: Job)
    ensures multiset(NewJobs(filtered, sent))[j] == if j.id !in sent then multiset(filtered)[j] else 0
  {
    SelectCount(filtered, Unsent(sent), j);
  }

  /** With no ids on file (the first run), every filtered job is new. */
  lemma {:induction false} FirstRunAllNew(filtered: seq<Job>)
    ensures NewJobs(filtered, LoadSent(None)) == filtered
  {
    SelectAll(filtered, Unsent(LoadSent(None)));
  }

  /** The new jobs keep the order of the filtered ones, and none of their ids was sent. */
  lemma {:induction false} NewJobsInOrder(filtered: seq<Job>, sent: set<string>)
    ensures IsSubsequence(NewJobs(filtered, sent), filtered)
    ensures IdsOf(NewJobs(filtered, sent)) !! sent
  {
    SelectIsSubsequence(filtered, Unsent(sent));
    forall j | j in NewJobs(filtered, sent) ensures j.id !in sent {
      NewJobsExact(filtered, sent, j);
    }
  }

  /**
   * Once the new ids are recorded, the same filtered list holds nothing new:
   * the dedupe step is idempotent.
   */
  lemma {:induction false} RerunFindsNothing(filtered: seq<Job>, sent: set<string>)
    ensures NewJobs(filtered, sent + IdsOf(NewJobs(filtered, sent))) == []
  {
    var found := NewJobs(filtered, sent);
    var after := sent + IdsOf(found);
    forall i | 0 <= i < |filtered| ensures filtered[i].id in after {
      NewJobsExact(filtered, sent, filtered[i]);
    }
    SelectNone(filtered, Unsent(after));
  }

  /** Contents of the sent-ids file as `load_sent_jobs` reads it: a missing file is the empty set. */
  function LoadSent(content: Option<set<string>>): set<string> {
    content.GetOr({})
  }

  /** The sent-ids file, `None` while it does not exist. */
  class SentJobsFile {
    var content: Option<set<string>>

    constructor (content: Option<set<string>>)
      ensures this.content == content
    {
      this.content := content;
    }

    /**
     * `scrape_jobs`: load the sent ids, and for a fetched page (`None` is a
     * request error) parse, filter and keep the jobs not sent before; when
     * there are any, add their ids to the set and save it.
     */
    method ScrapeJobs(page: Option<seq<Card>>, keywords: seq<string>)
      returns (newJobs: seq<Job>, saved: bool)
      modifies this
      ensures page.None? ==> newJobs == [] && !saved
      ensures page.Some? ==>
        newJobs == NewJobs(KeywordFiltered(ParseAll(page.value), keywords), LoadSent(old(content)))
      ensures saved <==> newJobs != []
      ensures content == if saved then Some(LoadSent(old(content)) + IdsOf(newJobs)) else old(content)
    {
      var sentJobs := LoadSent(content);
      if page.None? {
        return [], false;
      }
      var allJobs := ParseJobs(page.value);
      assert allJobs == ParseAll(page.value);
      var filteredJobs := FilterJobs(allJobs, keywords);
      newJobs := NewJobs(filteredJobs, sentJobs);
      saved := false;
      if newJobs != [] {
        ghost var loaded := sentJobs;
        for k := 0 to |newJobs|
          invariant sentJobs == loaded + IdsOf(newJobs[..k])
        {
          assert newJobs[..k + 1] == newJobs[..k] + [newJobs[k]];
          sentJobs := sentJobs + {newJobs[k].id};
        }
        assert newJobs[..|newJobs|] == newJobs;
        content := Some(sentJobs);
        saved := true;
      }
    }
  }

  /**
   * Two runs over the same page: the second finds nothing new and so does
   * not save, and the set on file after either run contains the one before.
   */
  lemma SecondRunFindsNothing(cards: seq<Card>, keywords: seq<string>, content: Option<set<string>>)
    ensures var filtered := KeywordFiltered(ParseAll(cards), keywords);
      var first := NewJobs(filtered, LoadSent(content));
      var after := if first != [] then Some(LoadSent(content) + IdsOf(first)) else content;
      LoadSent(content) <= LoadSent(after) && NewJobs(filtered, LoadSent(after)) == []
  {
    var filtered := KeywordFiltered(ParseAll(cards), keywords);
    RerunFindsNothing(filtered, LoadSent(content));
    var first := NewJobs(filtered, LoadSent(content));
    if first == [] {
      assert IdsOf(first) == {};
      assert LoadSent(content) + IdsOf(first) == LoadSent(content);
    }
  }

  // ---------------------------------------------------------------------
  // Worked examples
  // ---------------------------------------------------------------------

  /** The keyword list the scraper is configured with. */
  const SearchKeywords: seq<string> := ["python", "remote", "frontend", "front-end", "web developer"]

  /** The configured keywords are already lower case. */
  lemma KeywordsLower()
    ensures forall i :: 0 <= i < |SearchKeywords| ==> Lower(SearchKeywords[i]) == SearchKeywords[i]
  {
    assert Lower("python") == "python";
    assert Lower("remote") == "remote";
    assert Lower("frontend") == "frontend";
    assert Lower("front-end") == "front-end";
    assert Lower("web developer") == "web developer";
  }

  /** "Senior Python Engineer" matches through "python". */
  lemma PythonTitleMatches(j: Job)
    requires j.title == "Senior Python Engineer"
    ensures TitleMatches(j, SearchKeywords)
  {
    var t := Lower(j.title);
    assert t[7..13] == "python";
    ContainsIff(t, "python");
    assert OccursAt(t, "python", 7);
    KeywordsLower();
    assert Contains(t, Lower(SearchKeywords[0]));
  }

  /** No needle of six or more characters starting with neither `b` nor `a` is in "barista". */
  lemma BaristaLacks(needle: string)
    requires |needle| >= 6 && needle[0] != 'b' && needle[0] != 'a'
    ensures !Contains("barista", needle)
  {
    ContainsIff("barista", needle);
  }

  /** "Barista" matches no configured keyword. */
  lemma BaristaTitleMatchesNothing(j: Job)
    requires j.title == "Barista"
    ensures !TitleMatches(j, SearchKeywords)
  {
    assert Lower(j.title) == "barista";
    KeywordsLower();
    forall i | 0 <= i < |SearchKeywords| ensures !Contains("barista", Lower(SearchKeywords[i])) {
      BaristaLacks(SearchKeywords[i]);
    }
  }

  /** "Remote Frontend Developer" matches through "remote", ignoring case. */
  lemma RemoteTitleMatches(j: Job)
    requires j.title == "Remote Frontend Developer"
    ensures TitleMatches(j, SearchKeywords)
  {
    var t := Lower(j.title);
    assert t[..6] == "remote";
    KeywordsLower();
    assert Contains(t, Lower(SearchKeywords[1]));
  }

  /**
   * Three postings titled "Senior Python Engineer", "Barista" and "Remote
   * Frontend Developer": the configured keywords keep the first and the third.
   */
  lemma FilterScenario(j1: Job, j2: Job, j3: Job)
    requires j1.title == "Senior Python Engineer"
    requires j2.title == "Barista"
    requires j3.title == "Remote Frontend Developer"
    ensures KeywordFiltered([j1, j2, j3], SearchKeywords) == [j1, j3]
  {
    var p := MatchesAny(SearchKeywords);
    PythonTitleMatches(j1);
    BaristaTitleMatchesNothing(j2);
    RemoteTitleMatches(j3);
    assert p(j1) && !p(j2) && p(j3);
    SelectThree(j1, j2, j3, p);
  }

  /** Selecting from three elements of which the middle one fails the test. */
  lemma SelectThree<T>(a: T, b: T, c: T, p: T -> bool)
    requires p(a) && !p(b) && p(c)
    ensures Select([a, b, c], p) == [a, c]
  {
    assert [a, b, c][..2] == [a, b] && [a, b][..1] == [a] && [a][..0] == [];
    assert Select([a], p) == [a];
    assert Select([a, b], p) == Select([a], p) + [];
    assert Select([a, b, c], p) == Select([a, b], p) + [c];
  }

  /**
   * When the first of the two kept postings was sent before, only the second
   * is new, and afterwards the set holds both ids.
   */
  lemma DedupeScenario(j1: Job, j3: Job)
    requires j1.id != j3.id
    ensures NewJobs([j1, j3], {j1.id}) == [j3]
    ensures {j1.id} + IdsOf(NewJobs([j1, j3], {j1.id})) == {j1.id, j3.id}
  {
    var q := Unsent({j1.id});
    assert [j1, j3][..1] == [j1] && [j1][..0] == [];
    assert !q(j1) && q(j3);
    assert Select([j1], q) == Select([], q) + [];
    assert Select([j1, j3], q) == Select([j1], q) + [j3];
    assert IdsOf([j3]) == {j3.id};
  }
}
