/** The block controller of block_my_certificates.php: its own two row-shaping loops, the
    "unlock more" reconciliation (certificate definitions the user has not been issued),
    and the memoised `get_content`. The database is a value holding the two query
    results; links, dates, formatted text and the rendered template stay symbolic. */
module Block {
  import opened Records

  /** Name of the template the content is rendered with. */
  const CONTENT_TEMPLATE := "block_my_certificates/content"
  /** The host platform's code for HTML-formatted text. */
  const FORMAT_HTML := 1

  /** One row of the block's issued-certificates query. */
  datatype IssueRow = IssueRow(
    issueid: int,
    timecreated: int,
    code: string,
    customcertid: int,
    certname: string,
    courseid: int,
    coursename: string,
    cmid: int)

  /** One row of the certificate table (`id, name, course`), with the result of the
      course-module lookup for that certificate (`None` when none is found). */
  datatype CertRow = CertRow(id: int, name: string, course: int, cm: Option<int>)

  /** One certificate definition as the block shows it in the "unlock more" list. */
  datatype CertificateEntry = CertificateEntry(id: int, name: string, courseurl: Url, viewurl: Url)

  /** The store as the block reads it: the certificate table, and for each user the rows
      the issued-certificates query returns (no entry: no rows). */
  datatype Database = Database(customcert: seq<CertRow>, issues: map<int, seq<IssueRow>>) {
    function IssuesOf(userId: int): seq<IssueRow> {
      if userId in issues then issues[userId] else []
    }

    /** The query's ORDER BY: every user's rows come most recent first. */
    predicate Ordered() {
      forall u :: u in issues ==> RowsRecentFirst(issues[u])
    }
  }

  predicate RowsRecentFirst(rows: seq<IssueRow>) {
    forall i, j :: 0 <= i < j < |rows| ==> rows[i].timecreated >= rows[j].timecreated
  }

  /** The rich-text setting for the no-certificates message. */
  datatype EditorText = EditorText(text: string, format: int)
  /** Text passed through the host's formatter in the block's context. */
  datatype SafeHtml = FormattedText(text: string, format: int, contextId: int)
  /** What the block hands to its template. */
  datatype TemplateData = TemplateData(
    usercertificates: seq<IssuedCertificate>,
    allcertificates: seq<CertificateEntry>,
    nocertificatestext: SafeHtml)
  /** A template rendered by the host with the given data. */
  datatype Html = Rendered(template: string, data: TemplateData)
  /** A localised string looked up by the host. */
  datatype LangString = GetString(identifier: string, component: string)
  /** The two queries `get_content` runs. */
  datatype Query = AllCertificatesQuery | IssuedForUserQuery(userId: int)

  // ---------------------------------------------------------------------------------
  // Issued certificates

  function IssuedEntry(r: IssueRow): IssuedCertificate {
    IssuedCertificate(r.certname, r.coursename, r.courseid, r.customcertid, r.timecreated,
                      UserDate(r.timecreated, DayMonthYear), DownloadOwn(r.cmid))
  }

  /** The issued list the block builds from its query rows: one record per row, in row
      order, showing the certificate's own name, with ids and issue time copied unchanged;
      so rows that come most recent first give a list that is most recent first. */
  function IssuedList(rows: seq<IssueRow>): (out: seq<IssuedCertificate>)
    ensures |out| == |rows|
    ensures forall i :: 0 <= i < |rows| ==>
              out[i].certificate == rows[i].certname &&
              out[i].course == rows[i].coursename &&
              out[i].courseid == rows[i].courseid &&
              out[i].customcertid == rows[i].customcertid &&
              out[i].timecreated == rows[i].timecreated &&
              out[i].date == UserDate(rows[i].timecreated, DayMonthYear) &&
              out[i].previewurl == DownloadOwn(rows[i].cmid)
    ensures RowsRecentFirst(rows) ==> RecentFirst(out)
  {
    if rows == [] then []
    else IssuedList(rows[..|rows| - 1]) + [IssuedEntry(rows[|rows| - 1])]
  }

  // ---------------------------------------------------------------------------------
  // All certificates, with the view link carried from row to row

  /** The value `$viewurl ?? ''` has after the loop has seen `rows`: the variable is set
      only for a row with a course module and never reset, so it is the activity page of
      the last such row, or empty when there was none. */
  function CarriedViewUrl(rows: seq<CertRow>): Url {
    if rows == [] then NoUrl
    else match rows[|rows| - 1].cm
      case Some(cmid) => ActivityView(cmid)
      case None => CarriedViewUrl(rows[..|rows| - 1])
  }

  /** The carried link is empty exactly when no row so far had a course module. */
  lemma {:induction false} CarriedViewUrlEmpty(rows: seq<CertRow>)
    ensures CarriedViewUrl(rows) == NoUrl <==> forall j :: 0 <= j < |rows| ==> rows[j].cm.None?
  {
    if rows != [] {
      var init := rows[..|rows| - 1];
      CarriedViewUrlEmpty(init);
      assert forall j :: 0 <= j < |init| ==> init[j] == rows[j];
    }
  }

  /** Otherwise it is the activity page of the last row that had a course module, even
      when the current row has none. */
  lemma {:induction false} CarriedViewUrlFromLastModule(rows: seq<CertRow>, k: nat)
    requires k < |rows| && rows[k].cm.Some?
    requires forall j :: k < j < |rows| ==> rows[j].cm.None?
    ensures CarriedViewUrl(rows) == ActivityView(rows[k].cm.value)
    decreases |rows|
  {
    if k < |rows| - 1 {
      var init := rows[..|rows| - 1];
      assert init[k] == rows[k];
      assert forall j :: k < j < |init| ==> init[j] == rows[j];
      CarriedViewUrlFromLastModule(init, k);
    }
  }

  /** The certificate list the block builds: one entry per row, in row order, with the
      certificate's own name and course link; the view link of entry `i` is the link
      carried after row `i`. */
  function CertificateList(rows: seq<CertRow>): (out: seq<CertificateEntry>)
    ensures |out| == |rows|
    ensures forall i :: 0 <= i < |rows| ==>
              out[i].id == rows[i].id &&
              out[i].name == rows[i].name &&
              out[i].courseurl == CourseView(rows[i].course) &&
              out[i].viewurl == CarriedViewUrl(rows[..i + 1])
  {
    if rows == [] then []
    else
      var init := rows[..|rows| - 1];
      var last := rows[|rows| - 1];
      assert forall m :: 0 <= m <= |init| ==> init[..m] == rows[..m];
      assert rows[..|rows|] == rows;
      CertificateList(init) + [CertificateEntry(last.id, last.name, CourseView(last.course), CarriedViewUrl(rows))]
  }

  /** A definition without a course module shows the view link of an earlier one: with
      one certificate that has course module 7 followed by one that has none, the second
      entry links to the first one's activity page instead of being empty. */
  lemma CarriedViewUrlLeaks()
    ensures var rows := [CertRow(1, "A", 10, Some(7)), CertRow(2, "B", 10, None)];
            rows[1].cm.None? && CertificateList(rows)[1].viewurl == ActivityView(7)
  {
  }

  // ---------------------------------------------------------------------------------
  // Reconciliation

  /** `in_array($id, array_column($issued, 'customcertid'))`. */
  predicate IsIssued(id: int, issued: seq<IssuedCertificate>) {
    exists j :: 0 <= j < |issued| && issued[j].customcertid == id
  }

  /** The "unlock more" list: the definitions whose id the user has not been issued, in
      their original order. It is never longer than the list of all definitions. */
  function UnlockMore(all: seq<CertificateEntry>, issued: seq<IssuedCertificate>): (r: seq<CertificateEntry>)
    ensures |r| <= |all|
  {
    if all == [] then []
    else
      var rest := UnlockMore(all[..|all| - 1], issued);
      if IsIssued(all[|all| - 1].id, issued) then rest else rest + [all[|all| - 1]]
  }

  /** An entry is in the "unlock more" list exactly when it is one of all definitions and
      its id is not among the user's issued certificate ids. */
  lemma {:induction false} UnlockMoreMembers(all: seq<CertificateEntry>, issued: seq<IssuedCertificate>)
    ensures forall c :: c in UnlockMore(all, issued) <==> c in all && !IsIssued(c.id, issued)
  {
    if all != [] {
      var init := all[..|all| - 1];
      UnlockMoreMembers(init, issued);
      assert all == init + [all[|all| - 1]];
    }
  }

  /** The "unlock more" list is the subsequence of all definitions picked out by the
      increasing positions `idx`, and those positions are exactly the ones whose id the
      user has not been issued: order is kept and nothing else is dropped. */
  lemma {:induction false} UnlockMoreSelects(all: seq<CertificateEntry>, issued: seq<IssuedCertificate>)
    returns (idx: seq<int>)
    ensures |idx| == |UnlockMore(all, issued)|
    ensures forall k :: 0 <= k < |idx| ==> 0 <= idx[k] < |all| && UnlockMore(all, issued)[k] == all[idx[k]]
    ensures forall k, l :: 0 <= k < l < |idx| ==> idx[k] < idx[l]
    ensures forall j :: 0 <= j < |all| ==> (j in idx <==> !IsIssued(all[j].id, issued))
  {
    if all == [] {
      idx := [];
    } else {
      var n := |all| - 1;
      var init := all[..n];
      var prev := UnlockMoreSelects(init, issued);
      assert forall j :: 0 <= j < n ==> init[j] == all[j];
      if IsIssued(all[n].id, issued) {
        idx := prev;
      } else {
        idx := prev + [n];
      }
    }
  }

  /** A user with no issued certificates is offered every definition. */
  lemma {:induction false} UnlockMoreNoneIssued(all: seq<CertificateEntry>)
    ensures UnlockMore(all, []) == all
  {
    if all != [] {
      UnlockMoreNoneIssued(all[..|all| - 1]);
    }
  }

  /** The reconciliation loop of `get_content`. */
  method Reconcile(all: seq<CertificateEntry>, issued: seq<IssuedCertificate>) returns (diff: seq<CertificateEntry>)
    ensures diff == UnlockMore(all, issued)
  {
    diff := [];
    for n := 0 to |all|
      invariant diff == UnlockMore(all[..n], issued)
    {
      assert all[..n + 1][..n] == all[..n];
      if !IsIssued(all[n].id, issued) {
        diff := diff + [all[n]];
      }
    }
    assert all[..|all|] == all;
  }

  // ---------------------------------------------------------------------------------
  // Content

  /** The no-certificates message: the configured one, or empty HTML when none is set. */
  function NoCertificatesText(config: Option<EditorText>): EditorText {
    config.GetOr(EditorText("", FORMAT_HTML))
  }

  /** What `get_content` hands to its template for `userId`. */
  function ContentData(db: Database, userId: int, config: Option<EditorText>, contextId: int): TemplateData {
    var issued := IssuedList(db.IssuesOf(userId));
    var text := NoCertificatesText(config);
    TemplateData(issued, UnlockMore(CertificateList(db.customcert), issued),
                 FormattedText(text.text, text.format, contextId))
  }

  /** Whether the issued-certificates query for `userId` has a row for certificate `id`. */
  predicate HasIssue(db: Database, userId: int, id: int) {
    var rows := db.IssuesOf(userId);
    exists j :: 0 <= j < |rows| && rows[j].customcertid == id
  }

  /** An id is among the issued list's `customcertid`s exactly when a query row has it. */
  lemma IssuedIdsAreRowIds(db: Database, userId: int, id: int)
    ensures IsIssued(id, IssuedList(db.IssuesOf(userId))) <==> HasIssue(db, userId, id)
  {
  }

  /** The template receives as "unlock more" exactly the block's certificate entries
      whose id the user has no issue of. */
  lemma ContentDataUnlockMore(db: Database, userId: int, config: Option<EditorText>, contextId: int)
    ensures forall c :: c in ContentData(db, userId, config, contextId).allcertificates <==>
                          c in CertificateList(db.customcert) && !HasIssue(db, userId, c.id)
  {
    UnlockMoreMembers(CertificateList(db.customcert), IssuedList(db.IssuesOf(userId)));
    forall id: int {
      IssuedIdsAreRowIds(db, userId, id);
    }
  }

  /** The issued list is most recent first when the store keeps its ORDER BY, and with
      no configured message the no-certificates text is empty HTML. */
  lemma ContentDataDefaults(db: Database, userId: int, config: Option<EditorText>, contextId: int)
    ensures db.Ordered() ==> RecentFirst(ContentData(db, userId, config, contextId).usercertificates)
    ensures config.None? ==>
              ContentData(db, userId, config, contextId).nocertificatestext == FormattedText("", FORMAT_HTML, contextId)
  {
  }

  /** The block's content object: properties are absent until assigned. */
  class Content {
    var footer: Option<string>
    var text: Option<Html>

    constructor ()
      ensures footer == None && text == None
    {
      footer := None;
      text := None;
    }
  }

  class MyCertificatesBlock {
    var title: LangString
    var content: Content?
    var config: Option<EditorText>
    const contextId: int
    /** The queries run so far, in order. */
    ghost var queries: seq<Query>

    /** A block instance as the host creates it, after `init`: no content computed yet,
        and the title is the plugin's name string. */
    constructor (config: Option<EditorText>, contextId: int)
      ensures title == GetString("pluginname", "block_my_certificates")
      ensures content == null && this.config == config && this.contextId == contextId
      ensures queries == []
    {
      title := GetString("pluginname", "block_my_certificates");
      content := null;
      this.config := config;
      this.contextId := contextId;
      queries := [];
    }

    /** The block's issued list for `userId`, most recent first when the store keeps
        its ORDER BY. */
    method GetIssuedForUser(db: Database, userId: int) returns (out: seq<IssuedCertificate>)
      ensures out == IssuedList(db.IssuesOf(userId))
      ensures db.Ordered() ==> RecentFirst(out)
    {
      var rows := db.IssuesOf(userId);
      out := [];
      for n := 0 to |rows|
        invariant out == IssuedList(rows[..n])
      {
        assert rows[..n + 1][..n] == rows[..n];
        var r := rows[n];
        var previewurl := DownloadOwn(r.cmid);
        out := out + [IssuedCertificate(r.certname, r.coursename, r.courseid, r.customcertid,
                                        r.timecreated, UserDate(r.timecreated, DayMonthYear), previewurl)];
      }
      assert rows[..|rows|] == rows;
    }

    /** The block's list of all certificate definitions, with `$viewurl` carried across
        iterations: `None` while the variable is still unset. */
    method GetAllCertificates(db: Database) returns (out: seq<CertificateEntry>)
      ensures out == CertificateList(db.customcert)
    {
      var certificates := db.customcert;
      var viewurl: Option<Url> := None;
      out := [];
      for n := 0 to |certificates|
        invariant out == CertificateList(certificates[..n])
        invariant viewurl.GetOr(NoUrl) == CarriedViewUrl(certificates[..n])
      {
        var prefix := certificates[..n + 1];
        assert prefix[..n] == certificates[..n];
        var certificate := certificates[n];
        var courseurl := CourseView(certificate.course);
        if certificate.cm.Some? {
          viewurl := Some(ActivityView(certificate.cm.value));
        }
        out := out + [CertificateEntry(certificate.id, certificate.name, courseurl, viewurl.GetOr(NoUrl))];
      }
      assert certificates[..|certificates|] == certificates;
    }

    /** Returns the memoised content when there is one, changing nothing and running no
        query; otherwise runs the two queries, builds a fresh content object with an
        empty footer and the rendered template, and memoises it, so that later calls
        return that same object. */
    method GetContent(db: Database, userId: int) returns (c: Content)
      modifies this
      ensures old(content) != null ==> c == old(content) && unchanged(this) && unchanged(c)
      ensures old(content) == null ==>
                fresh(c) && content == c &&
                title == old(title) && config == old(config) &&
                queries == old(queries) + [AllCertificatesQuery, IssuedForUserQuery(userId)] &&
                c.footer == Some("") &&
                c.text == Some(Rendered(CONTENT_TEMPLATE, ContentData(db, userId, config, contextId)))
    {
      if content != null {
        return content;
      }
      var allcertificates := GetAllCertificates(db);
      queries := queries + [AllCertificatesQuery];
      var usercertificates := GetIssuedForUser(db, userId);
      queries := queries + [IssuedForUserQuery(userId)];
      var diffuservsallcerts := Reconcile(allcertificates, usercertificates);

      c := new Content();
      content := c;
      c.footer := Some("");
      var nocertificatestext := if config.Some? then config.value else EditorText("", FORMAT_HTML);
      var safehtml := FormattedText(nocertificatestext.text, nocertificatestext.format, contextId);
      var data := TemplateData(usercertificates, diffuservsallcerts, safehtml);
      c.text := Some(Rendered(CONTENT_TEMPLATE, data));
    }
  }
}
