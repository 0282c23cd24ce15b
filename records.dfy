/** Values shared by the block and its data provider: the record a page render hands to
    the template for each issued certificate, and the host platform's opaque values
    (links and formatted dates), kept symbolic. */
module Records {

  /** A value that may be absent: a NULL column of a LEFT JOIN, an unset config property. */
  datatype Option<+T> = None | Some(value: T) {
    /** The value, or `default` when absent (PHP's `??`). */
    function GetOr(default: T): T {
      match this
      case Some(v) => v
      case None => default
    }
  }

  /** A link as the host's URL class prints it; `NoUrl` is the empty string. */
  datatype Url =
    | NoUrl
    | CourseView(courseId: int)   // /course/view.php?id=<course>
    | ActivityView(cmId: int)     // /mod/customcert/view.php?id=<course module>
    | DownloadOwn(cmId: int)      // /mod/customcert/view.php?id=<course module>&downloadown=1

  /** The date formats the two issued-certificate queries pass to the host's date printer. */
  datatype DateFormat =
    | DayMonthYear   // the block's own 'strdaymonthyear' string
    | DateShort      // the host's 'strftimedateshort' string

  /** A timestamp printed by the host in a given format. */
  datatype DateText = UserDate(time: int, format: DateFormat)

  /** One issued certificate as shown in the "my certificates" list. */
  datatype IssuedCertificate = IssuedCertificate(
    certificate: string,
    course: string,
    courseid: int,
    customcertid: int,
    timecreated: int,
    date: DateText,
    previewurl: Url)

  /** Most recent issue first: the order the issued list is promised in. */
  predicate RecentFirst(out: seq<IssuedCertificate>) {
    forall i, j :: 0 <= i < j < |out| ==> out[i].timecreated >= out[j].timecreated
  }
}
