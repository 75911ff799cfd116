/**
 * The digest formatter and the message assembly of the job-alert emailer:
 * the plain-text and HTML renderings of the new jobs, the credential guard,
 * and the bodies of the message handed to the mail server.
 */
module Emailer {
  import opened Wrappers
  import opened Strings
  import opened Scraper

  const NoJobsText: string := "No new jobs found this week."
  const NoJobsHtml: string := "<p>No new jobs found this week.</p>"

  // ---------------------------------------------------------------------
  // Plain-text digest (format_jobs_text)
  // ---------------------------------------------------------------------

  /** The five lines listed for one job, the last one empty. */
  function JobLines(job: Job): seq<string> {
    ["- " + job.title, "  Company: " + job.company, "  Location: " + job.location, "  URL: " + job.url, ""]
  }

  /** The lines the loop of `format_jobs_text` collects, job after job. */
  function TextLines(jobs: seq<Job>): seq<string>
    decreases |jobs|
  {
    if jobs == [] then [] else TextLines(jobs[..|jobs| - 1]) + JobLines(jobs[|jobs| - 1])
  }

  /** What `format_jobs_text` returns. */
  function TextDigest(jobs: seq<Job>): string {
    if jobs == [] then NoJobsText else Join(TextLines(jobs), "\n")
  }

  /** `format_jobs_text`: the fixed message for no jobs, else five lines per job joined by newlines. */
  method FormatJobsText(jobs: seq<Job>) returns (text: string)
    ensures text == TextDigest(jobs)
  {
    if jobs == [] {
      return NoJobsText;
    }
    var lines: seq<string> := [];
    for i := 0 to |jobs|
      invariant lines == TextLines(jobs[..i])
    {
      var job := jobs[i];
      lines := lines + ["- " + job.title];
      lines := lines + ["  Company: " + job.company];
      lines := lines + ["  Location: " + job.location];
      lines := lines + ["  URL: " + job.url];
      lines := lines + [""];
      assert jobs[..i + 1][..i] == jobs[..i];
    }
    assert jobs[..|jobs|] == jobs;
    text := Join(lines, "\n");
  }

  /** Job `k` occupies lines `5k` to `5k + 4`, in the order title, company, location, URL, blank. */
  lemma {:induction false} TextLinesAt(jobs: seq<Job>, k: nat, m: nat)
    requires k < |jobs| && m < 5
    ensures |TextLines(jobs)| == 5 * |jobs|
    ensures TextLines(jobs)[5 * k + m] == JobLines(jobs[k])[m]
    decreases |jobs|
  {
    var init := jobs[..|jobs| - 1];
    if k < |init| {
      TextLinesAt(init, k, m);
      assert jobs[k] == init[k];
    } else if init != [] {
      TextLinesAt(init, 0, 0);
    }
  }

  /** No field of the job holds a line break. */
  predicate SingleLine(job: Job) {
    '\n' !in job.title && '\n' !in job.company && '\n' !in job.location && '\n' !in job.url
  }

  /** For single-line fields, splitting the text digest at newlines gives back its lines. */
  lemma {:induction false} TextDigestSplits(jobs: seq<Job>)
    requires jobs != []
    requires forall k :: 0 <= k < |jobs| ==> SingleLine(jobs[k])
    ensures Split(TextDigest(jobs), '\n') == TextLines(jobs)
  {
    var lines := TextLines(jobs);
    TextLinesAt(jobs, 0, 0);
    forall i | 0 <= i < |lines| ensures '\n' !in lines[i] {
      TextLinesAt(jobs, i / 5, i % 5);
      assert lines[i] == JobLines(jobs[i / 5])[i % 5];
    }
    SplitJoin(lines, '\n');
  }

  // ---------------------------------------------------------------------
  // HTML digest (format_jobs_html)
  // ---------------------------------------------------------------------

  /**
   * The text of the list item appended for one job, indentation included,
   * as the consecutive parts of the f-string: fixed text and the job's fields.
   */
  function ItemParts(job: Job): seq<string> {
    [ "\n        <li style=\"margin-bottom: 15px;\">\n            ",
      "<strong>", job.title, "</strong>", "<br>\n            ",
      "Company: ", job.company, "<br>", "\n            ",
      "Location: ", job.location, "<br>", "\n            ",
      "<a href=\"", job.url, "\">", "View Job</a>\n        </li>\n        " ]
  }

  /** The list item appended for one job. */
  function JobHtml(job: Job): string {
    Concat(ItemParts(job))
  }

  /** The list items of the jobs, in order. */
  function Items(jobs: seq<Job>): (r: seq<string>)
    ensures |r| == |jobs|
  {
    seq(|jobs|, i requires 0 <= i < |jobs| => JobHtml(jobs[i]))
  }

  /** What `format_jobs_html` returns. */
  function HtmlDigest(jobs: seq<Job>): string {
    if jobs == [] then NoJobsHtml else "<ul>" + Concat(Items(jobs)) + "</ul>"
  }

  /** `format_jobs_html`: the fixed paragraph for no jobs, else a list built by appending one item per job. */
  method FormatJobsHtml(jobs: seq<Job>) returns (html: string)
    ensures html == HtmlDigest(jobs)
  {
    if jobs == [] {
      return NoJobsHtml;
    }
    html := "<ul>";
    for i := 0 to |jobs|
      invariant html == "<ul>" + Concat(Items(jobs[..i]))
    {
      var job := jobs[i];
      html := html + JobHtml(job);
      assert Items(jobs[..i + 1]) == Items(jobs[..i]) + [JobHtml(job)];
    }
    assert jobs[..|jobs|] == jobs;
    html := html + "</ul>";
  }

  /** A non-empty HTML digest is a `<ul>` list; an empty one is the fixed paragraph. */
  lemma HtmlDigestShape(jobs: seq<Job>)
    ensures jobs == [] ==> HtmlDigest(jobs) == "<p>No new jobs found this week.</p>"
    ensures jobs != [] ==> var h := HtmlDigest(jobs);
      |h| >= 9 && h[..4] == "<ul>" && h[|h| - 5..] == "</ul>"
  {
  }

  /**
   * The item of job `k` sits right after the `<ul>` and the items of the
   * jobs before it, so the items appear in input order.
   */
  lemma HtmlItemAt(jobs: seq<Job>, k: nat)
    requires k < |jobs|
    ensures OccursAt(HtmlDigest(jobs), JobHtml(jobs[k]), 4 + |Concat(Items(jobs[..k]))|)
  {
    var items := Items(jobs);
    ConcatPieceAt(items, k);
    assert items[..k] == Items(jobs[..k]);
    OccursAtShift("<ul>", Concat(items), "</ul>", items[k], |Concat(items[..k])|);
  }

  /** An item shows the title in bold, the company, the location, and links to the URL. */
  lemma JobHtmlFields(job: Job)
    ensures Contains(JobHtml(job), "<strong>" + job.title + "</strong>")
    ensures Contains(JobHtml(job), "Company: " + job.company + "<br>")
    ensures Contains(JobHtml(job), "Location: " + job.location + "<br>")
    ensures Contains(JobHtml(job), "<a href=\"" + job.url + "\">")
  {
    var parts := ItemParts(job);
    var h := JobHtml(job);
    ConcatSliceAt(parts, 1, 4);
    assert parts[1] == "<strong>" && parts[2] == job.title && parts[3] == "</strong>";
    assert parts[1..4] == ["<strong>", job.title, "</strong>"];
    Concat3("<strong>", job.title, "</strong>");
    ConcatSliceAt(parts, 5, 8);
    assert parts[5] == "Company: " && parts[6] == job.company && parts[7] == "<br>";
    assert parts[5..8] == ["Company: ", job.company, "<br>"];
    Concat3("Company: ", job.company, "<br>");
    ConcatSliceAt(parts, 9, 12);
    assert parts[9] == "Location: " && parts[10] == job.location && parts[11] == "<br>";
    assert parts[9..12] == ["Location: ", job.location, "<br>"];
    Concat3("Location: ", job.location, "<br>");
    ConcatSliceAt(parts, 13, 16);
    assert parts[13] == "<a href=\"" && parts[14] == job.url && parts[15] == "\">";
    assert parts[13..16] == ["<a href=\"", job.url, "\">"];
    Concat3("<a href=\"", job.url, "\">");
    ContainsIff(h, "<strong>" + job.title + "</strong>");
    ContainsIff(h, "Company: " + job.company + "<br>");
    ContainsIff(h, "Location: " + job.location + "<br>");
    ContainsIff(h, "<a href=\"" + job.url + "\">");
  }

  // ---------------------------------------------------------------------
  // The message (send_email)
  // ---------------------------------------------------------------------

  /** The message handed to the mail server. */
  datatype Message = Message(
    subject: string,
    sender: string,
    recipient: string,
    textBody: string,
    htmlBody: string)

  /** `not EMAIL_ADDRESS or not EMAIL_PASSWORD` is false: both are set and non-empty. */
  predicate CredentialsConfigured(address: Option<string>, password: Option<string>) {
    address.Some? && address.value != [] && password.Some? && password.value != []
  }

  function Subject(date: string): string {
    "Weekly Job Alert - " + date
  }

  /** The plain-text body: a dated heading, the job count, and the text digest. */
  function TextBody(jobs: seq<Job>, date: string): string {
    "Weekly Job Report - " + date + "\n\n" + "Found " + Decimal(|jobs|) + " new job(s):\n\n" + TextDigest(jobs)
  }

  /** The fixed HTML page around the HTML digest. */
  function HtmlBody(jobs: seq<Job>, date: string): string {
    HtmlHead(jobs, date) + HtmlDigest(jobs) + HtmlFoot()
  }

  function HtmlHead(jobs: seq<Job>, date: string): string {
    "\n    <html>\n    <body>\n        <h2>Weekly Job Report - " + date + "</h2>\n        "
    + "<p>Found <strong>" + Decimal(|jobs|) + "</strong> new job(s):</p>\n        "
  }

  function HtmlFoot(): string {
    "\n        <hr>\n        <p style=\"color: gray; font-size: 12px;\">\n"
    + "            This is an automated email from your Weekly Job Emailer.\n"
    + "        </p>\n    </body>\n    </html>\n    "
  }

  /**
   * `send_email`, with the date and the outcome of the mail-server session
   * given: without credentials nothing is built and the result is false;
   * otherwise the message is built and the result is whether it was delivered.
   */
  method SendEmail(
    address: Option<string>, password: Option<string>, recipient: Option<string>,
    jobs: seq<Job>, date: string, delivered: bool)
    returns (ok: bool, message: Option<Message>)
    ensures !CredentialsConfigured(address, password) ==> !ok && message.None?
    ensures CredentialsConfigured(address, password) ==>
      ok == delivered &&
      message == Some(Message(
        Subject(date), address.value, recipient.GetOr(address.value),
        TextBody(jobs, date), HtmlBody(jobs, date)))
  {
    if address.None? || address.value == [] || password.None? || password.value == [] {
      return false, None;
    }
    var subject := "Weekly Job Alert - " + date;
    var textBody := "Weekly Job Report - " + date + "\n\n";
    textBody := textBody + "Found " + Decimal(|jobs|) + " new job(s):\n\n";
    var digest := FormatJobsText(jobs);
    textBody := textBody + digest;
    var items := FormatJobsHtml(jobs);
    var htmlBody := HtmlHead(jobs, date) + items + HtmlFoot();
    message := Some(Message(subject, address.value, recipient.GetOr(address.value), textBody, htmlBody));
    ok := delivered;
  }

  /** The lines of the text digest: the fixed message alone when there are no jobs. */
  function DigestLines(jobs: seq<Job>): seq<string> {
    if jobs == [] then [NoJobsText] else TextLines(jobs)
  }

  /** The text digest is its lines joined, and for single-line fields no line holds a newline. */
  lemma {:induction false} DigestLinesJoin(jobs: seq<Job>)
    requires forall k :: 0 <= k < |jobs| ==> SingleLine(jobs[k])
    ensures DigestLines(jobs) != []
    ensures Join(DigestLines(jobs), "\n") == TextDigest(jobs)
    ensures forall i :: 0 <= i < |DigestLines(jobs)| ==> '\n' !in DigestLines(jobs)[i]
  {
    var body := DigestLines(jobs);
    if jobs != [] {
      TextLinesAt(jobs, 0, 0);
      forall i | 0 <= i < |body| ensures '\n' !in body[i] {
        TextLinesAt(jobs, i / 5, i % 5);
        assert body[i] == JobLines(jobs[i / 5])[i % 5];
      }
    }
  }

  /** The four lines that open the text body: heading, blank, count, blank. */
  function HeadLines(jobs: seq<Job>, date: string): seq<string> {
    ["Weekly Job Report - " + date, "", "Found " + Decimal(|jobs|) + " new job(s):", ""]
  }

  /** The text body is the head lines and the digest lines joined by newlines. */
  lemma {:induction false} TextBodyJoin(jobs: seq<Job>, date: string)
    requires forall k :: 0 <= k < |jobs| ==> SingleLine(jobs[k])
    ensures TextBody(jobs, date) == Join(HeadLines(jobs, date) + DigestLines(jobs), "\n")
  {
    var head := HeadLines(jobs, date);
    var heading, count := head[0], head[2];
    assert head[3..] == [""];
    assert head[2..] == [count] + head[3..];
    assert head[1..] == [""] + head[2..];
    assert Join(head[2..], "\n") == count + "\n" + "";
    assert Join(head[1..], "\n") == "" + "\n" + (count + "\n" + "");
    assert Join(head, "\n") == heading + "\n" + ("" + "\n" + (count + "\n" + ""));
    DigestLinesJoin(jobs);
    JoinAppend(head, DigestLines(jobs), "\n");
  }

  /**
   * For a single-line date and single-line fields, the text body splits into
   * the heading, a blank line, the count line, a blank line, and the lines of
   * the digest (the fixed message when there are no jobs).
   */
  lemma {:induction false} TextBodyLines(jobs: seq<Job>, date: string)
    requires '\n' !in date
    requires forall k :: 0 <= k < |jobs| ==> SingleLine(jobs[k])
    ensures Split(TextBody(jobs, date), '\n') ==
      ["Weekly Job Report - " + date, "", "Found " + Decimal(|jobs|) + " new job(s):", ""]
      + (if jobs == [] then [NoJobsText] else TextLines(jobs))
  {
    var head, body := HeadLines(jobs, date), DigestLines(jobs);
    TextBodyJoin(jobs, date);
    DigestLinesJoin(jobs);
    var lines := head + body;
    forall i | 0 <= i < |lines| ensures '\n' !in lines[i] {
      if i >= 4 {
        assert lines[i] == body[i - 4];
      } else if i == 2 {
        assert forall c :: c in Decimal(|jobs|) ==> IsDigit(c);
      }
    }
    SplitJoin(lines, '\n');
  }

  /** The HTML body embeds the HTML digest after the heading and the count. */
  lemma HtmlBodyEmbedsDigest(jobs: seq<Job>, date: string)
    ensures OccursAt(HtmlBody(jobs, date), HtmlDigest(jobs), |HtmlHead(jobs, date)|)
  {
    var h, d := HtmlHead(jobs, date), HtmlDigest(jobs);
    assert (h + d + HtmlFoot())[|h|..|h| + |d|] == d;
  }
}
