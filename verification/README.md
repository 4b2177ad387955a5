# JP Morgan job tracker: reconciliation, record file and digest order

This project is a Dafny model of the part of `jp-morgan-automation.py` that decides
what the tracker reports and remembers. Each run fetches the recent software
postings. The tracker compares them with its record of postings already seen. It
e-mails a digest of the new and re-dated ones and writes the updated record back
to `seen_jobs_jpmorgan.txt`.

The modules follow the program:

- `Base`: `Option`.
- `Text`: the Python string operations the program uses:
  - `str.strip()` with exactly the characters `str.isspace()` accepts;
  - `str.split(sep)` (leftmost, non-overlapping cuts);
  - `sep.join(...)`;
  - the code-point order in which Python compares `str` values.
- `Jobs`: a fetched `Posting`, a record `Entry` `(url, posted_date, status)`,
  and the record itself as a Python dict. The dict is a `Dict(order, m)`: a
  key map plus the keys in insertion order. The record file is written in that
  order. Assigning to an existing key keeps its place; a new key goes last.
- `Store`: `load_seen_jobs` and `save_seen_jobs`.
  - A line is stripped and split on `|||`.
  - Four fields give `(key, url, date, status)`.
  - Three fields give status `"Pending"`.
  - Any other field count drops the line.
  - A later line for the same key replaces an earlier one.
  - The file text is read with Python's universal newlines: `\r\n` and `\r` are read as `\n`.
  - A missing file is `None` and yields the empty record.
- `Dates`: the `strftime("%Y-%m-%d")` form of a posted date. For four-digit
  years, comparing these strings is comparing calendar days.
- `Digest`: the sort in `send_email_notification`, `sort(key=Posted Date,
  reverse=True)`. It is a stable insertion sort with the newest date first.
  Two sorted sequences with the same per-date runs are proved equal, so any
  stable newest-first sort (Python's included) gives the same result as this one.
- `Reconcile`: the two loops of `main` and the save gate.
  - A posting is reported when its key is unknown, or known under a different
    posted date. This is judged against the record as loaded, because the first
    loop never writes to it.
  - Only when something is reported is the digest produced. Then every fetched
    posting is folded into the record, and the record is saved.
  - The update loop is modelled as written: the status is read from the record
    while it is being updated. A lemma shows this equals the loaded status, or
    "Pending" for a key not in the record.

The record's first field is the composite key `title | location | url` that the
fetcher builds. It is not the bare title, although the loader's local variable
is named `title`. The model stores the key, as the code does.

The round trip from record to file and back needs stronger conditions than "no
field contains `|||`". `split` cuts at the leftmost occurrence of `|||`. So a
field before a separator must also not end in `|`. Otherwise that `|` and the
first two bars of the separator form the cut. For example, `"x|" + "|||" + "u"`
splits as `"x"`, `"|u"` (`Text.TrailingBarBreaksSplit`). `Store.Storable`
states the full condition:

- the key, URL and date hold no `|||` and do not end in `|`;
- the status holds no `|||`;
- the key does not start, and the status does not end, with whitespace, since
  `strip()` would remove it.

For the whole file, no field may hold `\n` or `\r` either.

## Model

| member | source | states |
|---|---|---|
| Reconcile.Changed | jp-morgan-automation.py:123-135 | the first loop of `main` as a function of the fetch and the loaded record; its meaning is stated by `Reconcile.ChangedPicks` and `Reconcile.ChangedMembers` |
| Reconcile.Update | jp-morgan-automation.py:141-144 | the second loop of `main` as written, reading each status from the dict being updated; its meaning is stated by `Reconcile.UpdateAt` and `Reconcile.UpdateKeepsOrder` |
| Reconcile.ChangedMembers | jp-morgan-automation.py:125-135 | a posting is reported iff it was fetched and its key is absent from the loaded record or stored under a different posted date |
| Reconcile.ChangedPicks | jp-morgan-automation.py:123-135 | the reported postings are the fetched ones at exactly the positions where the key is new or the date differs, at strictly increasing positions: a sub-sequence in fetch order |
| Reconcile.FindChanged | jp-morgan-automation.py:123-135 | the first loop of `main` computes exactly the reported sub-sequence, judged against the record as loaded |
| Reconcile.UpdateAt | jp-morgan-automation.py:141-144 | after the update a key is held iff it was held or fetched; a fetched key holds the URL and date of its last occurrence in the fetch and its loaded status, or "Pending" if it was not held; an unfetched key keeps its loaded entry |
| Reconcile.UpdateKeepsOrder | jp-morgan-automation.py:141-144 | the updated record is still a well-formed dict, and the loaded keys stay in front in their old order: no key is lost or moved |
| Reconcile.ApplyUpdate | jp-morgan-automation.py:141-144 | the update loop, which reads each status from the dict being updated, yields the updated record and keeps the dict well formed |
| Reconcile.RunOnce | jp-morgan-automation.py:125-148 | the digest is empty iff nothing is reported, and then nothing is saved and the record is unchanged; otherwise the digest is a permutation of the reported postings, newest first and stable per date, and the file text written is the updated record |
| Reconcile.FirstSighting | jp-morgan-automation.py:130-144 | a single fetched posting checked against an empty record is reported, and the update records it with status "Pending" |
| Reconcile.Redated | jp-morgan-automation.py:133-144 | a single fetched posting whose key is the record's only key, under another date, is reported, and its entry takes the new URL and date but keeps its status |
| Reconcile.SameDateSilent | jp-morgan-automation.py:133-135 | a single fetched posting whose key the record holds under the same date is not reported, whatever its URL |
| Digest.SortDesc | jp-morgan-automation.py:59 | the newest-first stable sort of the digest; its meaning is stated by `Digest.SortDescPerm`, `Digest.SortDescSorted`, `Digest.SortDescStable` and `Digest.SortedUnique` |
| Digest.Insert | jp-morgan-automation.py:59 | one step of that sort, placing a posting behind every posting dated the same day or later and in front of the older ones; its meaning is stated by `Digest.InsertPerm`, `Digest.InsertSorted` and `Digest.InsertWithDate` |
| Digest.SortDescPerm | jp-morgan-automation.py:59 | the sorted digest is a permutation of its input |
| Digest.SortDescSorted | jp-morgan-automation.py:59 | the sorted digest is non-increasing by posted-date string |
| Digest.SortDescStable | jp-morgan-automation.py:59 | for every date, the postings with that date appear in the sorted digest in their input order (stability) |
| Digest.SortedUnique | jp-morgan-automation.py:59 | two date-sorted sequences that agree on every per-date run are equal, so the stable descending sort has exactly one possible result |
| Digest.NewestFirst | jp-morgan-automation.py:59 | in the sorted digest no posting comes before one posted on a later calendar day |
| Digest.InsertPerm | jp-morgan-automation.py:59 | inserting a posting adds it and drops nothing |
| Digest.InsertSorted | jp-morgan-automation.py:59 | inserting into a date-sorted run keeps it sorted |
| Digest.InsertWithDate | jp-morgan-automation.py:59 | inserting leaves every other date's run as it was and puts the new posting last in its own date's run |
| Dates.Format | jp-morgan-automation.py:109 | `strftime("%Y-%m-%d")` of a date; its meaning is stated by `Dates.FormatOrder` and `Dates.FormatInjective` |
| Dates.FormatOrder | jp-morgan-automation.py:109 | two `%Y-%m-%d` strings compare as Python strings exactly as their dates compare on the calendar |
| Dates.FormatInjective | jp-morgan-automation.py:109 | distinct dates format to distinct strings |
| Dates.PadOrder | jp-morgan-automation.py:109 | zero-padded numbers of one width compare as strings as they compare as numbers, and are equal only when the numbers are |
| Store.ParseLine | jp-morgan-automation.py:37-44 | reads one line: strip, split on the separator, pick the entry by field count; its meaning is stated by `Store.ParseFields`, `Store.ParseLineSound` and `Store.LineRoundTrip` |
| Store.FromParts | jp-morgan-automation.py:38-44 | the field-count branches of the loader; its meaning is stated by `Store.FromPartsSound` |
| Store.FormatLine | jp-morgan-automation.py:52 | the line written for one key and entry; its meaning is stated by `Store.LineRoundTrip` and `Store.StripWritten` |
| Store.Collect | jp-morgan-automation.py:33-45 | the record built from the read lines in order, dropped lines skipped and later lines overwriting; its meaning is stated by `Store.CollectLastWins`, `Store.CollectValid` and `Store.LoadSave` |
| Store.Load | jp-morgan-automation.py:36-45 | `load_seen_jobs` over the lines of the file; its meaning is stated by `Store.LoadLastWins` and `Store.LoadSave` |
| Store.LoadFile | jp-morgan-automation.py:32-46 | `load_seen_jobs` over the file contents, a missing file giving the empty record; its meaning is stated by `Store.FileRoundTrip` |
| Store.SaveFile | jp-morgan-automation.py:49-52 | the full text `save_seen_jobs` writes; its meaning is stated by `Store.FileRoundTrip` |
| Store.ReadLines | jp-morgan-automation.py:35-36 | the lines yielded by iterating over a file opened in text mode; its meaning is stated by `Store.Translate`, `Store.SplitLines` and `Store.SplitLinesConcat` |
| Store.ParseFields | jp-morgan-automation.py:37-44 | a line whose stripped text is cleanly separated fields is read by field count alone: four give key and entry, three give status "Pending", any other count drops the line |
| Store.ParseLineSound | jp-morgan-automation.py:37-45 | whatever a line is read as, its stripped text is those fields joined with the separator, with the status left out only when it was defaulted, and key, URL and date hold no separator |
| Store.FromPartsSound | jp-morgan-automation.py:38-45 | the pieces of a split line give an entry iff there are three or four of them; the key, URL and date are the first three pieces, the status is the fourth piece when there are four and "Pending" when there are three |
| Store.LineRoundTrip | jp-morgan-automation.py:37-52 | reading back a line written for a storable key and entry gives that key and entry |
| Store.StripWritten | jp-morgan-automation.py:37-52 | stripping a written line removes exactly its line terminator when the key does not start, and the status does not end, with whitespace |
| Store.LoadLastWins | jp-morgan-automation.py:36-45 | a key is in the loaded record iff some line is read as an entry for it, and then it holds the entry of the last such line |
| Store.CollectValid | jp-morgan-automation.py:33-45 | the loaded record is a well-formed dict |
| Store.LoadSave | jp-morgan-automation.py:32-52 | reading back the lines written for a record of storable entries gives the same record, insertion order included |
| Store.FileRoundTrip | jp-morgan-automation.py:32-52 | reading back the file written for a record gives the same record, provided its entries are storable and hold no line breaks |
| Store.SplitLinesConcat | jp-morgan-automation.py:36 | iterating over text made of `\n`-terminated lines gives back those lines |
| Store.Translate | jp-morgan-automation.py:35-36 | universal-newline reading leaves no `\r`, and changes nothing in text that has none |
| Store.SplitLines | jp-morgan-automation.py:36 | file iteration yields non-empty lines that concatenate back to the text |
| Store.Save | jp-morgan-automation.py:49-52 | one line is written per key of the record |
| Jobs.Put | jp-morgan-automation.py:45 | a dict assignment, used at lines 45 and 144: an existing key keeps its place, a new key goes last; its meaning is stated by `Jobs.PutValid` and the order clauses of `Store.CollectDistinct` and `Reconcile.UpdateKeepsOrder` |
| Jobs.PutValid | jp-morgan-automation.py:45 | storing a key keeps the dict well formed |
| Jobs.Empty | jp-morgan-automation.py:33 | the fresh record is well formed and holds no key |
| Text.Split | jp-morgan-automation.py:37 | `split` on the separator: always at least one piece; its meaning is stated by `Text.SplitPieces`, `Text.SplitClean` and `Text.SplitJoin` |
| Text.Join | jp-morgan-automation.py:52 | the fields written with the separator between them; its meaning is stated by `Text.SplitJoin`, the inverse of `Text.Split` on clean fields |
| Text.Strip | jp-morgan-automation.py:37 | `strip()` leaves no whitespace at either end and never lengthens the string |
| Text.StripCuts | jp-morgan-automation.py:37 | `strip()` keeps an infix of its argument and removes only whitespace around it |
| Text.StripLine | jp-morgan-automation.py:37 | `strip()` turns a line with no outer whitespace plus its `\n` back into the line |
| Text.SplitPieces | jp-morgan-automation.py:37 | joining the pieces of the split on the separator with the separator gives back the string |
| Text.SplitClean | jp-morgan-automation.py:37 | no piece of the split on the separator holds the separator |
| Text.SplitJoin | jp-morgan-automation.py:37-52 | splitting fields joined with the separator gives back the fields when every field but the last is clean and the last holds no separator |
| Text.TrailingBarBreaksSplit | jp-morgan-automation.py:37-52 | a key that ends in a bar character does not survive the round trip: the written key "x" plus a bar, then the separator and "u", splits into "x" and a bar followed by "u" |
| Text.LessTrichotomy | jp-morgan-automation.py:59 | any two date strings are ordered one way, the other way, or equal, which the descending sort relies on |
| Text.LessTransitive | jp-morgan-automation.py:59 | the string order the sort compares by is transitive |

## Left out

- Fetching (`fetch_recent_jobs`, lines 77-117) is left out: HTTP requests, JSON decoding and the `hasMore` pagination loop. The fetched postings are an input sequence.
- The recency filter against `CUTOFF_DATE` (lines 19, 95) is left out. It depends on the clock, including the time of day. Fetched postings are taken as already filtered.
- Postings without a `PostedDate` are skipped by the fetcher (lines 90-92). They never reach the model.
- `build_url` (lines 21-30) and the key and URL templates (lines 99-104) are left out. The key and URL are opaque strings.
- The e-mail itself (lines 61-74) is left out: the `EmailMessage`, its body text and SMTP delivery. Only the order of the digest is modelled.
- If sending the e-mail raises an exception, `main` stops before saving. The model treats the notification as always succeeding.
- The console messages (lines 120, 138, 148) are left out.
- File access is modelled only as contents. `os.path.exists` becomes `Option<string>`, with `None` for a missing file. Opening, writing, character encoding and I/O errors are left out.
- The configuration constants and credentials (lines 8-16) are left out.
- The record file is modelled with `\n` line ends, which is what `open(..., "w")` writes on POSIX systems. On Windows, text mode writes `\r\n` instead; the universal-newline read maps that back to `\n`, so loading is unaffected, but `Store.SaveFile` is then not the exact bytes on disk.
- Dates.FormatOrder: proved only for years 1000-9999. How `%Y` pads earlier years depends on the platform.
- Reconcile.UpdateKeepsOrder: states that the loaded keys keep their places at the front. It does not state the order in which newly fetched keys follow, which is the order of their first occurrence in the fetch.
