/** The data provider of classes/local/certificate_data_provider.php: it shapes the rows of
    two read queries into display records, one record per row, in row order. The queries
    themselves are not modelled; their results are the input sequences. */
module DataProvider {
  import opened Records
  import opened PhpText

  /** One row of the issued-certificates query. `certificatename` comes from a LEFT JOIN
      on the template table and is `None` when the certificate has no template. */
  datatype IssueRow = IssueRow(
    issueid: int,
    timecreated: int,
    code: string,
    customcertid: int,
    activityname: string,
    certificatename: Option<string>,
    courseid: int,
    coursename: string,
    cmid: int)

  /** One row of the all-certificates query, with the result of the course-module lookup
      for that certificate (`None` when no course module is found). */
  datatype DefinitionRow = DefinitionRow(
    id: int,
    course: int,
    activityname: string,
    certificatename: Option<string>,
    coursename: string,
    cm: Option<int>)

  /** One certificate definition as shown in the "unlock more" list. */
  datatype CertificateEntry = CertificateEntry(
    id: int,
    name: string,
    course: string,
    courseurl: Url,
    viewurl: Url)

  predicate RowsRecentFirst(rows: seq<IssueRow>) {
    forall i, j :: 0 <= i < j < |rows| ==> rows[i].timecreated >= rows[j].timecreated
  }

  /** The name shown for a certificate: its trimmed template name when that is not empty,
      otherwise its activity name as stored. A missing template name counts as empty. */
  function DisplayName(template: Option<string>, activityname: string): string {
    var t := Trim(template.GetOr(""));
    if t != "" then t else activityname
  }

  /** The activity name is used exactly when there is no template name or it is blank;
      otherwise the trimmed template name is used, and it is neither empty nor padded. */
  lemma DisplayNameRule(template: Option<string>, activityname: string)
    ensures template.None? || AllBlank(template.value) ==>
              DisplayName(template, activityname) == activityname
    ensures template.Some? && !AllBlank(template.value) ==>
              var r := DisplayName(template, activityname);
              r == Trim(template.value) && r != "" && !IsBlank(r[0]) && !IsBlank(r[|r| - 1])
  {
  }

  /** What the record shown for one issued-certificate row holds: the display-name
      fallback, the ids and the issue time copied unchanged, the issue date in the host's
      short format, and the link that downloads the user's own copy. */
  predicate IssuedFromRow(o: IssuedCertificate, r: IssueRow) {
    o.certificate == DisplayName(r.certificatename, r.activityname) &&
    o.course == r.coursename &&
    o.courseid == r.courseid &&
    o.customcertid == r.customcertid &&
    o.timecreated == r.timecreated &&
    o.date == UserDate(r.timecreated, DateShort) &&
    o.previewurl == DownloadOwn(r.cmid)
  }

  /** What the entry shown for one definition row holds. The view link depends on this
      row alone: the activity page when the row has a course module, else empty. */
  predicate EntryFromRow(o: CertificateEntry, r: DefinitionRow) {
    o.id == r.id &&
    o.name == DisplayName(r.certificatename, r.activityname) &&
    o.course == r.coursename &&
    o.courseurl == CourseView(r.course) &&
    o.viewurl == (if r.cm.Some? then ActivityView(r.cm.value) else NoUrl)
  }

  /** Records that copy their rows' issue times are in the rows' order of recency. */
  lemma IssuedOrderFollowsRows(out: seq<IssuedCertificate>, rows: seq<IssueRow>)
    requires |out| == |rows|
    requires forall i :: 0 <= i < |rows| ==> IssuedFromRow(out[i], rows[i])
    ensures RowsRecentFirst(rows) ==> RecentFirst(out)
  {
  }

  /** One record per issued-certificate row, in row order; because the issue time is
      copied unchanged, rows that come most recent first (the query's ORDER BY) give a
      list that is most recent first. */
  method GetIssuedForUser(rows: seq<IssueRow>) returns (out: seq<IssuedCertificate>)
    ensures |out| == |rows|
    ensures forall i :: 0 <= i < |rows| ==> IssuedFromRow(out[i], rows[i])
    ensures RowsRecentFirst(rows) ==> RecentFirst(out)
  {
    out := [];
    for n := 0 to |rows|
      invariant |out| == n
      invariant forall i :: 0 <= i < n ==> IssuedFromRow(out[i], rows[i])
    {
      var r := rows[n];
      var previewurl := DownloadOwn(r.cmid);
      var certificatename := Trim(r.certificatename.GetOr(""));
      var name := if certificatename != "" then certificatename else r.activityname;
      assert name == DisplayName(r.certificatename, r.activityname);
      var record := IssuedCertificate(
        name,
        r.coursename,
        r.courseid,
        r.customcertid,
        r.timecreated,
        UserDate(r.timecreated, DateShort),
        previewurl);
      assert IssuedFromRow(record, r);
      out := out + [record];
    }
    IssuedOrderFollowsRows(out, rows);
  }

  /** One entry per certificate definition, in row order. */
  method GetAllCertificates(rows: seq<DefinitionRow>) returns (out: seq<CertificateEntry>)
    ensures |out| == |rows|
    ensures forall i :: 0 <= i < |rows| ==> EntryFromRow(out[i], rows[i])
  {
    out := [];
    for n := 0 to |rows|
      invariant |out| == n
      invariant forall i :: 0 <= i < n ==> EntryFromRow(out[i], rows[i])
    {
      var certificate := rows[n];
      var courseurl := CourseView(certificate.course);
      var viewurl := NoUrl;
      var certificatename := Trim(certificate.certificatename.GetOr(""));
      if certificate.cm.Some? {
        viewurl := ActivityView(certificate.cm.value);
      }
      var name := if certificatename != "" then certificatename else certificate.activityname;
      assert name == DisplayName(certificate.certificatename, certificate.activityname);
      var entry := CertificateEntry(
        certificate.id,
        name,
        certificate.coursename,
        courseurl,
        viewurl);
      assert EntryFromRow(entry, certificate);
      out := out + [entry];
    }
  }
}
