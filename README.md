# Reddit post logger: row identifiers and the append-only log

The script `main.py` follows the stream of new Reddit submissions and appends
one row per new post to an OpenDocument spreadsheet. Each row holds an
identifier, the subreddit, the title and the short link `https://redd.it/<id>`.
The identifiers are handed out by `next_id`, a sequencer over labels made of a
capital-letter prefix and a three-digit, zero-padded number:
`A001, ..., A999, B001, ..., Z999, AA001, ...`.

This project models two parts of the script and proves what they promise.

- `numerals.dfy` (module `Numerals`) reads a letter prefix as a bijective
  base-26 numeral (A = 1, ..., Z = 26). It defines the carry increment
  `NextPrefix` the way `next_id` performs it: the last letter goes up, a Z
  turns into A and carries to its left, and a carry off the left end adds a
  leading A. The proofs show that this increment adds one to the number the
  prefix denotes. They also show that shortlex order on prefixes is numeric
  order, and that the increment yields the very next prefix in that order.
- `labels.dfy` (module `Labels`) splits a string the way `next_id` does: the
  letter prefix is everything but the last three characters, and `int()` is
  applied to the last three. A `Label` datatype holds the two parts.
  - `Format` is the `"{prefix}{number:03d}"` f-string. `Successor` and
    `NextLabel` specify `next_id`.
  - `NextId` is `next_id` as a method. `IncrementPrefix` is its carry loop
    over a character array (the `while ... else` with `insert(0, 'A')`).
  - An encoding of labels as counters (`A001` is 999) shows that repeated
    `next_id` calls count up one by one. No label is skipped or repeated.
- `post_log.dfy` (module `PostLog`) models the script's state as a class
  `Log`:
  - the sheet's rows;
  - the set of post ids seen in this run;
  - the identifier the next row will get.

  `Open` is the startup: create a header-only sheet, or reopen a saved sheet
  and resume after the identifier in its last row. `OnPost` is the body of the
  stream loop and `Run` the loop over a finite stretch of the feed. The proofs
  show the following:
  - every new post id gets exactly one row;
  - the rows of a run carry consecutive, strictly increasing identifiers;
  - reopening the sheet after any row resumes at the identifier the running
    script would have used next.

On a sheet holding only its header row, the last row's first cell is `"ID"`.
The code then calls `int("ID")`, which raises at startup. It does not start
again at `A001`, as one might expect. The model's `Labels.Accepted` covers
only part of the inputs `next_id` handles: nothing, the empty string, and a
capital-letter prefix followed by three ASCII digits. On some other inputs the
script raises (`"ID"`). On others it keeps going: `int()` reads signs and
spaces (`" 12"` gives `"013"`), and a prefix of other letters is carried
character by character (`"a005"` gives `"a006"`). The model excludes both
kinds. `Open` therefore requires a saved sheet's last identifier to satisfy
`Accepted` (`PostLog.HeaderOnlyNotAccepted` shows the header-only sheet does
not). The script itself never saves a sheet without a post row.

## Model

| member | source | states |
|---|---|---|
| `Numerals.ValueOfNumeral` | main.py:92-104 | Reading back the prefix written for a number gives the number: letter prefixes and positive numbers correspond one to one |
| `Numerals.NumeralOfValue` | main.py:92-104 | Writing out the number a prefix denotes gives the prefix back |
| `Numerals.NextPrefix` | main.py:92-104 | The carry increment of a prefix is again capital letters and never empty |
| `Numerals.NextPrefixValue` | main.py:92-104 | Incrementing a prefix "like a counter" adds exactly one to the number it denotes |
| `Numerals.NextPrefixIsNumeral` | main.py:92-104 | The carry increment is the prefix of the next number |
| `Numerals.NextPrefixExamples` | main.py:73-74 | A becomes B, Z becomes AA, AZ becomes BA, ZZ becomes AAA |
| `Numerals.NextPrefixTrailingZ` | main.py:99-101 | A run of trailing Z's turns into as many A's and carries into the letters before it |
| `Numerals.NextPrefixShape` | main.py:95-101 | The rightmost non-Z letter goes up by one, the Z's after it become A's, the letters before it stay |
| `Numerals.NextPrefixAllZ` | main.py:102-103 | When every letter is Z the carry runs off the left end: the prefix becomes one letter longer and all A's |
| `Numerals.ShortLexIffValue` | main.py:92-104 | Shorter prefixes first, then dictionary order, is exactly the order of the numbers the prefixes denote (both directions) |
| `Numerals.NextPrefixFollows` | main.py:92-104 | The increment comes after its prefix in shortlex order and no prefix lies strictly between them |
| `Labels.DigitsValue` | main.py:81 | The value int() reads from k ASCII digits is below 10^k |
| `Labels.Pad3` | main.py:106 | The zero-padded number is three characters long |
| `Labels.Pad3Digits` | main.py:106 | The three characters written for n are digits that read back as n |
| `Labels.Pad3OfDigits` | main.py:106 | Padding the value of three digits gives those digits back |
| `Labels.PrefixPart` | main.py:80 | The prefix is three characters shorter than the identifier, or empty when it has fewer |
| `Labels.Parse` | main.py:80-81 | Taking an identifier apart gives a capital-letter prefix and a number of at most 999 |
| `Labels.ParseFormat` | main.py:106 | What the f-string writes is taken apart by the slicing into the same prefix and number |
| `Labels.FormatOfParse` | main.py:80-81 | Writing out a taken-apart identifier of three or more characters gives the identifier back |
| `Labels.Encode` | main.py:73-74 | The k-th counter value is a valid label |
| `Labels.DecodeEncode` | main.py:73-74 | Counting labels is a bijection with the naturals: decode after encode is the identity |
| `Labels.EncodeDecode` | main.py:73-74 | Encode after decode is the identity on valid labels |
| `Labels.PrecedesIffDecode` | main.py:73-74 | The order of the sequence (prefix in shortlex order, then number) is the order of the counters, both directions |
| `Labels.Successor` | main.py:83-104 | The label after a valid one is valid: prefix of capitals, number from 1 to 999 |
| `Labels.SuccessorCounts` | main.py:83-104 | The next label is exactly one counter step up and comes later in the order |
| `Labels.NextParts` | main.py:76-104 | next_id's label is always valid, for no identifier, the empty one and every parsable one |
| `Labels.IncrementPrefix` | main.py:93-104 | The array carry loop returns the carry increment of the prefix |
| `Labels.NextId` | main.py:70-106 | next_id returns A001 for nothing or "" and otherwise the written successor of the parsed label |
| `Labels.FirstLabel` | main.py:76-77 | The sequence starts at A001 both for no identifier and for an empty one |
| `Labels.NextLabelWithinPrefix` | main.py:83-84 | For every capital prefix and number below 999, next_id keeps the prefix and writes the number plus one |
| `Labels.RolloverOf` | main.py:86-90 | After 999 the number restarts at 001 under the incremented prefix, for every prefix |
| `Labels.Iterate` | main.py:161 | Labels handed out one after another stay valid |
| `Labels.IterateCounts` | main.py:161 | The k-th label after l is k counter steps up from l |
| `Labels.IterateIncreases` | main.py:161 | Labels handed out later come later in the order and are written differently |
| `Labels.WellFormedParse` | main.py:80-81 | An identifier as the log writes it parses to a valid label that writes back to it |
| `Labels.FormatWellFormed` | main.py:106 | Every valid label is written as letters followed by three digits other than 000 |
| `Labels.NextLabelOfFormat` | main.py:161 | next_id accepts any identifier it wrote, and returns the written successor |
| `Labels.FreshSequence` | main.py:109 | From a fresh start the k-th identifier is counter 999 + k: A001, A002, ..., nothing skipped |
| `Labels.FormattedIncrease` | main.py:133 | Identifiers handed out earlier are well formed and read back as earlier labels |
| `Labels.NextLabelFollows` | main.py:70-106 | next_id of a well-formed identifier is well formed and comes after it in the order |
| `Labels.IdentsInOrderTransitive` | main.py:73-74 | The order of the sequence is transitive |
| `PostLog.PermalinkInjective` | main.py:148 | Different post ids get different links |
| `PostLog.HeaderOnlyNotAccepted` | main.py:60-64 | The first cell of a header-only sheet is "ID", which next_id cannot take apart |
| `PostLog.FreshExactlyOnce` | main.py:124-126 | The posts that get a row come from the feed, avoid the seen ids, have pairwise different ids and cover every new id |
| `PostLog.LabelledRows` | main.py:129-152 | One row is written per post |
| `PostLog.FeedStep` | main.py:121-126 | One more post adds its id to the ids, and it gets a row exactly when its id was neither seen nor earlier in the feed |
| `PostLog.LabelledRowsStep` | main.py:129-161 | One more post gets a row under the label after those of the posts before it |
| `PostLog.RunStep` | main.py:121-161 | After one post is handled, the seen ids, the count of rows and the rows are those of the feed up to and including it |
| `PostLog.ConsistentAfterPost` | main.py:124-161 | Logging a post with a new id keeps the log consistent, and the pending identifier is one next_id accepts |
| `PostLog.Log.Open` | main.py:40-66 | Startup: no saved sheet gives the header row with A001 pending; a saved sheet keeps its rows with next_id of its last identifier pending; nothing is seen yet, and the run's first label is next_id's label of what was read |
| `PostLog.Log.OnPost` | main.py:124-161 | A seen id changes nothing; a new id is marked seen, gets the row [pending, subreddit, title, link] and moves pending to next_id(pending) |
| `PostLog.Log.Run` | main.py:121-161 | After a stretch of the feed, every id in it is seen and exactly the new posts got rows, in feed order, under consecutive labels |
| `PostLog.ResumeAgrees` | main.py:44-48 | Once a row is written, reopening the sheet and calling next_id on the last row's identifier gives the pending identifier |
| `PostLog.SeenExactlyOnce` | main.py:124-126 | An id is seen exactly when one of this run's rows carries its link, and no two rows of this run carry the same link: each seen id has exactly one row |
| `PostLog.SeenHasRow` | main.py:124-126 | An id is seen exactly when some row of this run carries its link |
| `PostLog.LinksDiffer` | main.py:124-148 | Two rows of this run carry different links |
| `PostLog.RowLabel` | main.py:133 | The k-th row of this run carries the k-th label handed out |
| `PostLog.RowsBeforePending` | main.py:161 | Every identifier written in this run is well formed and comes before the pending one |
| `PostLog.RowsOrdered` | main.py:133 | Of two rows of this run, the earlier carries the earlier identifier |
| `PostLog.LabelsIncrease` | main.py:133 | The identifiers of this run's rows strictly increase |
| `PostLog.ResumedAfter` | main.py:44-109 | When the log resumed after a well-formed saved identifier, that identifier comes before every identifier of this run and before the pending one, so the order goes on across a restart |

## Left out

- The Reddit client (PRAW), the credentials file and the network are not modelled. The feed is a finite sequence of posts given as a parameter, and each post is its id, subreddit name and title.
- The OpenDocument library and the file system are not modelled: loading, creating and saving the spreadsheet (`doc.save`). A saved sheet is a sequence of rows of cell texts, and a cell without text reads as the empty string. A save that fails is not modelled.
- A saved file without any table (the `[0]` on the table list raises) is not modelled.
- Console output and the handling of Ctrl+C are not modelled. They do not change the sheet.
- The stream never ends; `Run` covers any finite stretch of it, which is all the log can have recorded at any moment.
- The seen set lives only for one run of the script. Ids logged by an earlier run are not carried over, and the model does not claim they are.
- Labels.NextId: requires the prefix to be capital letters A–Z and the last three characters to be ASCII digits. Python's `int()` also accepts signs, spaces, underscores and other Unicode digits. A prefix with other characters would be incremented character by character. Those inputs are outside the model.
- PostLog.Log.Open: requires a saved sheet's last identifier to satisfy `Accepted`. On some other identifiers (`"ID"` of the header-only sheet) the script raises at startup; on others (lowercase prefixes, signs, spaces) it resumes. The model describes neither.
- PostLog.ResumedAfter: the order across a restart is stated for the saved sheet's last identifier only. The rows saved earlier are whatever the file holds, and the model does not claim they are in order.
