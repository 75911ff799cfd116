# Weekly job-alert emailer — a Dafny model of its deterministic core

The system scrapes one job-listings page, keeps the postings whose title
contains a configured keyword, drops the postings whose id was already
reported in an earlier run (the ids live in a small JSON file), records the
new ids, and emails a plain-text and an HTML digest of the new postings.

This project models the parts of that pipeline that are plain data
transformation, and proves what they promise:

- `scraper.dfy` (module `Scraper`): building a job record from one listing
  card with fixed defaults, deriving the record's id from its URL or
  from its title and location, the keyword filter, and the
  dedupe-and-record step of `scrape_jobs` over a class whose field is the
  persisted sent-ids file. A card is modelled as the already-extracted
  optional texts of its `.title`, `.location` and `.price` elements and the
  `href` of its link.
- `emailer.dfy` (module `Emailer`): the text digest (`format_jobs_text`), the
  HTML digest (`format_jobs_html`), and `send_email`'s credential guard and
  message assembly, with the date string and the outcome of the mail-server
  session given as parameters.
- `strings.dfy` (module `Strings`): the Python `str` operations these rely on
  (`lower`, `in`, `replace`, `split`, `join`, `str` of an integer), with their
  laws: `join` and `split` are inverse, the substring test is "occurs at some
  index", decimal numerals read back to their value.
- `lists.dfy` (module `Lists`): order-preserving selection (a list
  comprehension with a condition) and the subsequence relation.
- `wrappers.dfy` (module `Wrappers`): `Option`, for elements, variables and
  files that may be absent.

Three points of the code's behaviour that the model keeps as they are:

- The id deletes every `.html` anywhere in the last URL segment, not only a
  trailing one (`scraper.py:68`); see `IdDeletesEveryHtml`.
- The file is saved exactly when the new-jobs list is non-empty
  (`scraper.py:115`). That is exactly when the set grows, because new jobs
  are those whose ids are missing from it.
- The `.price` text is stored as `company`.

## Model

| member | source | states |
|---|---|---|
| Scraper.ParseJobs | scraper.py:41-77 | one record per card, in card order, each equal to the card's parsed record |
| Scraper.ParseCardDefaults | scraper.py:58-64 | a missing title or location gives "Unknown", a missing price gives company "", a missing link gives url ""; a present element gives its text |
| Scraper.IdFromLastSegment | scraper.py:66-68 | with a URL, the id is the segment after the last `/` with `.html` deleted |
| Scraper.IdOfPlainSegment | scraper.py:67-68 | a last segment in which `.html` does not occur is the id unchanged |
| Scraper.IdOfTrailingSlash | scraper.py:67-68 | a URL ending in `/` gives the empty id |
| Scraper.IdDeletesEveryHtml | scraper.py:68 | every `.html` in the last segment is deleted, not only a trailing one |
| Scraper.IdOfPostingPage | scraper.py:66-68 | a posting URL `.../<name>.html` (no `.` or `/` in name) has id `<name>` |
| Scraper.UrlIdHasNoSlash | scraper.py:68 | a URL-derived id never contains `/` |
| Scraper.FoldShape | scraper.py:70 | lower-casing then replacing spaces keeps the length and leaves no space and no upper-case letter |
| Scraper.FallbackIdParts | scraper.py:70 | the fallback id is the folded title, `_`, and the folded location |
| Scraper.IdWithoutUrl | scraper.py:69-70 | without a URL (none, or an empty href) the id is folded title + `_` + folded location, of length |title|+1+|location|, with no space and no upper-case letter |
| Scraper.FallbackIdsCollide | scraper.py:69-70 | two URL-less cards (no link, or an empty href) whose titles and locations fold alike get the same id |
| Scraper.AnyKeyword | scraper.py:88 | true exactly when some keyword, lower-cased, occurs in the lower-cased title |
| Scraper.FilterJobs | scraper.py:80-90 | the loop returns the input for no keywords, else exactly the matching jobs in input order |
| Scraper.FilterWithoutKeywords | scraper.py:82-83 | an empty keyword list leaves the jobs unchanged |
| Scraper.FilterKeepsExactlyMatches | scraper.py:85-90 | a job is kept if and only if it is in the input and some keyword occurs in its title, ignoring case |
| Scraper.FilterKeepsCopies | scraper.py:80-90 | every copy of a matching job is kept (all copies when there are no keywords) and no copy of another |
| Scraper.FilterIsSubsequence | scraper.py:80-90 | the filtered list is a subsequence of the input (order preserved) |
| Scraper.NewJobsExact | scraper.py:111 | a job is new if and only if it passed the filter and its id is not in the sent set |
| Scraper.NewJobsKeepCopies | scraper.py:111 | every copy of a job whose id is unsent is new, and no copy of a sent one |
| Scraper.FirstRunAllNew | scraper.py:97-111 | with no file yet, the loaded set is empty and every filtered job is new |
| Scraper.NewJobsInOrder | scraper.py:111 | the new jobs keep the filtered order, and none of their ids is in the sent set |
| Scraper.RerunFindsNothing | scraper.py:111-117 | after the new ids are added, the same filtered list yields no new jobs |
| Scraper.SentJobsFile.ScrapeJobs | scraper.py:93-123 | a request error returns [] and writes nothing; otherwise the new jobs are the parsed, filtered, unsent ones, a save happens iff there are any, and the saved set is the loaded set plus their ids |
| Scraper.SecondRunFindsNothing | scraper.py:97-117 | over an unchanged page, the set on file never shrinks and a second run finds nothing new |
| Scraper.FilterScenario | scraper.py:80-90 | "Senior Python Engineer", "Barista", "Remote Frontend Developer" under the configured keywords keep the first and third |
| Scraper.DedupeScenario | scraper.py:111-117 | with the first posting's id already sent, only the other is new and the set ends with both ids |
| Strings.ContainsIff | scraper.py:88 | Python's `in` holds exactly when the needle occurs at some index |
| Strings.ReplaceSkipsPrefix | scraper.py:68 | `replace` copies through a prefix that cannot start an occurrence |
| Strings.ReplaceCharAt | scraper.py:70 | replacing `" "` by `"_"` works character by character and keeps the length |
| Strings.LastPieceIsSuffix | scraper.py:68 | `split("/")[-1]` is the longest suffix without `/` |
| Strings.JoinSplit | emailer.py:45 | joining the pieces of a split gives back the string |
| Strings.SplitJoin | emailer.py:45 | splitting the newline-join of newline-free lines gives back the lines |
| Strings.DecimalRoundTrip | emailer.py:65 | the count printed with `str` reads back as the count |
| Lists.SelectMember | scraper.py:111 | an element is selected if and only if it is in the list and passes the test |
| Lists.SelectCount | scraper.py:111 | selection keeps as many copies of a passing element as the list has, and none of a failing one |
| Lists.SelectIsSubsequence | scraper.py:85-90 | selection keeps the relative order of the kept elements |
| Emailer.FormatJobsText | emailer.py:33-45 | "No new jobs found this week." for no jobs, else the five lines per job joined by newlines |
| Emailer.TextLinesAt | emailer.py:38-45 | there are 5n lines; lines 5k..5k+4 are "- "+title, "  Company: "+company, "  Location: "+location, "  URL: "+url, "" |
| Emailer.TextDigestSplits | emailer.py:38-45 | for single-line fields, splitting the digest at newlines gives back exactly its lines |
| Emailer.FormatJobsHtml | emailer.py:14-30 | the fixed paragraph for no jobs, else `<ul>`, one item per job in order, `</ul>` |
| Emailer.HtmlDigestShape | emailer.py:16-29 | an empty digest is exactly the fixed paragraph; a non-empty one starts with `<ul>` and ends with `</ul>` |
| Emailer.HtmlItemAt | emailer.py:19-29 | job k's item sits right after `<ul>` and the items of jobs 0..k-1 |
| Emailer.JobHtmlFields | emailer.py:21-28 | an item holds the title inside `<strong>`, "Company: "+company, "Location: "+location and an `href` equal to the url |
| Emailer.SendEmail | emailer.py:48-101 | without a non-empty address and password it returns false and builds nothing; otherwise it builds the subject, sender, recipient (defaulting to the address), text and HTML bodies and returns whether delivery succeeded |
| Emailer.TextBodyLines | emailer.py:64-66 | the text body's lines are the dated heading, a blank, "Found n new job(s):", a blank, then the digest's lines |
| Emailer.HtmlBodyEmbedsDigest | emailer.py:69-81 | the HTML body contains the HTML digest right after its heading |

## Left out

- Fetching the page (`scraper.py:29-38`) and evaluating CSS selectors (`scraper.py:49-56`) are network I/O and an HTML library. A page is given as `Option<seq<Card>>`, where `None` stands for a request error.
- The per-card `try/except` (`scraper.py:73-75`) cannot fire in the model, because building a record from a card is total.
- Reading and writing the JSON file (`scraper.py:14-26`) are file I/O. The file is the field `content: Option<set<string>>`, where `None` means the file is absent. Its list order and a corrupt file are not modelled.
- `time.sleep` and all printing are left out; they have no effect on the values.
- The SMTP session, STARTTLS, login and MIME construction (`emailer.py:58-61, 83-101`) are foreign library calls. Their outcome is the parameter `delivered`, and the message is the `Message` value.
- `datetime.now().strftime(...)` (`emailer.py:54`) reads the clock, so the date string is a parameter.
- `config.py` reads the environment. Only the keyword list is restated, as `Scraper.SearchKeywords`. The address, password and recipient are parameters of `SendEmail`.
- `main.py` is not part of this model. Its only logic is to skip sending when the list of new jobs is empty.
- `Strings.Lower` folds only the ASCII letters A-Z. Python's `str.lower` is Unicode-aware.
- `Strings.Split` handles only one-character separators. The code only splits on `"/"`.
