# My Certificates block — verified model of its query shaping and reconciliation

The block shows a user the certificates they have been issued and, below them, the
certificate definitions they could still earn ("unlock more"). This project models, in
Dafny, the two places where that logic lives:

- **The block controller** (`block_my_certificates.php`): `get_content` returns the
  memoised content object when there is one; otherwise it reads all certificate
  definitions and the user's issued certificates, keeps the definitions whose id is not
  among the user's issued `customcertid`s (in their original order), builds a fresh
  content object with an empty footer, formats the no-certificates message (empty HTML
  when none is configured) and renders the template. Its own two row loops shape query
  rows into display records. In its all-certificates loop the `$viewurl` variable is
  never reset, so a definition without a course module inherits the link of the last
  one that had one.
- **The data provider** (`classes/local/certificate_data_provider.php`): the same two
  row loops, with a display-name fallback (the trimmed template name when it is not
  empty, else the activity name; a missing template name counts as empty) and a view
  link reset for every row.

Modules: `Records` (shared record and opaque host values), `PhpText` (PHP's `trim`),
`DataProvider`, `Block`. The database is abstracted as the query results: the provider's
methods take the rows, the block reads a `Database` value holding the certificate table
and each user's issued-query rows. The course-module lookup is an `Option` in each
definition row. Links (`Url`), dates (`DateText`), formatted text (`SafeHtml`), localised
strings and the rendered template (`Html`) are symbolic values, so the model says which
host call receives which arguments without modelling the host. The block's content
object is a class whose properties are absent (`None`) until assigned; a ghost query
log on the block records the queries `get_content` runs, so the memoised path can be
shown to run none.

The repository's tests expect more of the block than its code does; the model follows
the code: the block always runs both queries (there is no `showallcertificates` gating and
no module-availability check), never substitutes a default localised message for an
empty configured one, and calls its own row loops, not the data provider.

## Model

| member | source | states |
|---|---|---|
| `PhpText.TrimStart` | classes/local/certificate_data_provider.php:60 | the result is a suffix of the input, everything cut off is blank (space, tab, LF, CR, NUL, VT) and the result does not start with a blank |
| `PhpText.TrimEnd` | classes/local/certificate_data_provider.php:60 | the result is a prefix of the input, everything cut off is blank and the result does not end with a blank |
| `PhpText.Trim` | classes/local/certificate_data_provider.php:60 | the trimmed name is no longer than the input and neither of its ends is blank |
| `PhpText.TrimSlice` | classes/local/certificate_data_provider.php:60 | the trimmed name is a contiguous slice of the input and every character outside the slice is blank |
| `PhpText.TrimEmptyIffAllBlank` | classes/local/certificate_data_provider.php:60-63 | the trimmed name is empty exactly when every character of the input is blank |
| `DataProvider.DisplayNameRule` | classes/local/certificate_data_provider.php:60-63 | the activity name is shown when the template name is missing (NULL from the LEFT JOIN at line 48) or blank; otherwise the trimmed template name, non-empty and unpadded, is shown (the same rule names definitions at lines 99 and 107) |
| `DataProvider.GetIssuedForUser` | classes/local/certificate_data_provider.php:57-71 | exactly one record per row, in row order, named by the fallback rule, with course, course id, certificate id and issue time copied unchanged, the short date format and the download-own link; most-recent-first rows give a most-recent-first list |
| `DataProvider.IssuedOrderFollowsRows` | classes/local/certificate_data_provider.php:53-71 | records that copy their rows' issue times keep the ORDER BY timecreated DESC: most recent first |
| `DataProvider.GetAllCertificates` | classes/local/certificate_data_provider.php:95-112 | exactly one entry per definition row, in row order, id and course name copied, named by the fallback rule; the view link is the activity page when that row has a course module and empty otherwise, independent of earlier rows |
| `Block.IssuedList` | block_my_certificates.php:136-150 | one record per query row, in row order, with `certificate` the certificate's name and course, course id, certificate id and issue time copied unchanged; most-recent-first rows give a most-recent-first list |
| `Block.MyCertificatesBlock.GetIssuedForUser` | block_my_certificates.php:115-151 | the loop builds exactly the issued list of the user's query rows, and that list is most recent first when the store keeps its ORDER BY |
| `Block.CertificateList` | block_my_certificates.php:166-182 | one entry per certificate row, in row order, id and name copied, course link from the row's course, and the view link the one carried after that row |
| `Block.CarriedViewUrlEmpty` | block_my_certificates.php:170-178 | the carried view link is empty exactly when no row so far had a course module |
| `Block.CarriedViewUrlFromLastModule` | block_my_certificates.php:170-178 | otherwise it is the activity page of the last row with a course module, even for a row that has none |
| `Block.CarriedViewUrlLeaks` | block_my_certificates.php:156-178 | a definition without a course module that follows one with course module 7 gets that module's activity page, not the empty string the doc-comment promises |
| `Block.MyCertificatesBlock.GetAllCertificates` | block_my_certificates.php:161-183 | the loop, with `$viewurl` unset at first and never reset, builds exactly the certificate list of the table's rows |
| `Block.UnlockMore` | block_my_certificates.php:55-61 | the "unlock more" list is never longer than the list of all definitions |
| `Block.UnlockMoreMembers` | block_my_certificates.php:55-61 | an entry is in the "unlock more" list exactly when it is one of all definitions and its id is not among the user's issued `customcertid`s |
| `Block.UnlockMoreSelects` | block_my_certificates.php:57-60 | the "unlock more" list is all definitions taken at strictly increasing positions, and those positions are exactly the ones whose id is not issued: a subsequence in the original order, dropping nothing else |
| `Block.UnlockMoreNoneIssued` | block_my_certificates.php:57-61 | a user with no issued certificates is offered every definition, in order |
| `Block.Reconcile` | block_my_certificates.php:55-61 | the `foreach` that appends non-issued definitions builds exactly the "unlock more" list |
| `Block.IssuedIdsAreRowIds` | block_my_certificates.php:58 | an id is among the issued list's `customcertid` column exactly when one of the user's query rows has that certificate id |
| `Block.ContentDataUnlockMore` | block_my_certificates.php:51-61 | the template receives as "unlock more" exactly the block's certificate entries whose id the user has no issue of |
| `Block.ContentDataDefaults` | block_my_certificates.php:72-84 | the template's issued list is most recent first when the store keeps its ORDER BY, and with no configured text the message is empty text in HTML format |
| `Block.MyCertificatesBlock.GetContent` | block_my_certificates.php:44-89 | with content already set: returns that same object, changes nothing and runs no query; otherwise runs the all-certificates then the issued query, creates a fresh content object, memoises it, sets its footer to empty and its text to the rendered template over the issued list, the reconciled list and the formatted message (configured text, else empty HTML) |
| `Block.MyCertificatesBlock.constructor` | block_my_certificates.php:35-37 | a new block has no content yet and its title is the plugin-name string |
| `Block.Content.constructor` | block_my_certificates.php:69 | a new content object has neither footer nor text |

## Findings

| source | as written | input that shows it | evidently intended | confidence | as-written member | corrected member |
|---|---|---|---|---|---|---|
| block_my_certificates.php:170-178 | `$viewurl` is assigned only when a course module is found and never reset between iterations | certificate 1 with course module 7, then certificate 2 without one: certificate 2's view link is module 7's activity page | the empty string for a definition without a course module (doc-comment at lines 156-157), as the data provider does by resetting the link per row | high; not executed | `Block.CarriedViewUrlLeaks` | `DataProvider.GetAllCertificates` |

`Block.MyCertificatesBlock.GetContent` keeps the as-written loop, because
`get_content` calls the block's own method; the corrected per-row behaviour is the data
provider's, which the block does not call.

## Left out

- The SQL text, joins and `$DB` calls: query results are input sequences. The host
  returns records keyed by their first column; those columns (issue id, certificate id)
  are unique keys, so the keyed array is taken to be the row sequence.
- The ORDER BY of the provider's all-certificates query (course name, then certificate
  name) depends on the database's collation; the model only states that row order is kept.
- `moodle_url`, `userdate`, `get_string`, `format_text` and `render_from_template` are
  symbolic constructors; their output strings are not modelled.
- The page requirements added at block_my_certificates.php:63-67 (the PDF library and
  its AMD call): host side effects with no bearing on the content.
- `applicable_formats` (block_my_certificates.php:96-104): a constant table for the host.
- `in_array` compares loosely; ids are modelled as integers, which is what the stored
  numeric ids compare as.
- `trim` works on bytes; the model works on characters. The stripped characters are all
  ASCII, which never occur inside a multi-byte UTF-8 character, so the result is the same.
- `$USER` and `$DB` globals: the user id and the database are parameters.
- Configuration resolution (colours, gradient direction, fill mode, display toggles),
  `showallcertificates` gating, the module-availability check and a default
  no-certificates string: none of them is in the block or provider code.
- The provider-injection hooks the tests override (`get_certificate_data_provider`,
  `is_customcert_available`): the block class does not have them.
- The configuration form, the colour-picker widget, the client-side PDF preview script,
  the language strings and the version file: form construction, HTML widgets and
  asynchronous UI work without logic of the core.
