# To-do file format and house-finder data shaping, in Dafny

This project models two small programs of one repository and proves properties
of the models.

**The to-do command-line tool** (`to_do_cli/src/main.rs`) keeps tasks in a text
file, one per line, as `description<TAB>status`. `load_tasks` keeps the lines
that split on tabs into exactly two parts; a task is done exactly when the
second part is `done`. `save_tasks` writes each task as
`description\tdone\n` or `description\tnot done\n`. `add` appends an undone
task, `done` marks every task with the given description and reports whether
one existed, and `list` shows the tasks. The model keeps the program's
imperative shape: `LoadTasks` and `SaveTasks` are loops that push onto a list
or a string, and the `done` walk updates an array of tasks in place. Each is
proved against a specification function (`ParseTasks`, `SaveText`,
`MarkMatching`), and the lemmas about those functions give the round trip
(saving then loading gives back the same tasks when no description holds a
tab or newline), the line-by-line structure of both directions, and what each
command leaves in the file. Rust's `str::split` and `str::lines` are modelled
exactly in `text.dfy`, including how `lines` drops one `'\r'` before a `'\n'`.

**The house finder** (`house_finder/search.py`) turns the listing cards of a
results page into `[address, price, link]` records. A card missing its
address, price or link is skipped. A link without an `href` makes the program
raise (see Findings); the model skips that card. It then appends a rental price to each record, looked up by a slug
of the address. On any failure the lookup gives the string `Not Available`.
Fetching pages and reading their markup are abstract here. A card is the three
fields the scraper looks for, each possibly missing. A rental lookup is a
function from the lookup URL to what the fetch produced: a raised request, a
response with its status and the price element's text if present, or another
failure.

Modules: `Wrappers` (Option, Result), `Text` (Rust string splitting), `Tasks`
(the task record and file format), `TodoCli` (the commands), `Search` (the
house finder).

## Model

| member | source | states |
|---|---|---|
| Text.Split | to_do_cli/src/main.rs:66 | `split('\t')` gives one more part than there are tabs, and no part holds a tab |
| Text.JoinSplit | to_do_cli/src/main.rs:66 | joining the parts of a split with the separator gives back the text |
| Text.SplitFirst | to_do_cli/src/main.rs:66 | a split is the piece before the first separator followed by the split of the rest |
| Text.SplitJoin | to_do_cli/src/main.rs:66 | splitting inverts joining when no part holds the separator |
| Text.Lines | to_do_cli/src/main.rs:65 | `lines()` gives lines without `'\n'`, one per newline plus one for an unterminated last piece |
| Text.LinesCons | to_do_cli/src/main.rs:65 | the first line of `a + "\n" + b` is `a` less a final `'\r'`, and the rest are the lines of `b` |
| Tasks.Task.New | to_do_cli/src/main.rs:7-12 | a new task has the given description and is not done |
| Tasks.Task.MarkDone | to_do_cli/src/main.rs:14-16 | marking keeps the description and makes the task done |
| Tasks.ParseLineMeaning | to_do_cli/src/main.rs:66-71 | a line is a task exactly when it holds one tab; the description is the text before the tab, and the task is done exactly when the text after it is `done` (so `not done` or anything else is not done) |
| Tasks.ParseLines | to_do_cli/src/main.rs:65-74 | parsing yields at most one task per line |
| Tasks.ParseLinesCons | to_do_cli/src/main.rs:65-74 | the first line contributes its task, if it parses, ahead of the tasks of the remaining lines |
| Tasks.ParseLinesAppend | to_do_cli/src/main.rs:65-74 | parsing is line by line and keeps order: the tasks of two runs of lines are those of each, concatenated |
| Tasks.LoadTasks | to_do_cli/src/main.rs:62-76 | the push loop over the lines returns exactly the specified parse of the file text |
| Tasks.SaveTasks | to_do_cli/src/main.rs:78-85 | the push loop returns exactly the specified text: every task's line and newline, in order |
| Tasks.SaveTextAppend | to_do_cli/src/main.rs:80-83 | saving is task by task: the text of two lists is the text of each, concatenated |
| Tasks.StatusTextPlain | to_do_cli/src/main.rs:81 | the status words `done` and `not done` hold no tab or newline and end in `e`, never in `'\r'` |
| Tasks.TaskLines | to_do_cli/src/main.rs:80-82 | one written line per task, in order: description, tab, status |
| Tasks.ParseTaskLine | to_do_cli/src/main.rs:70-82 | the line written for a task with a tab- and newline-free description parses back to that task |
| Tasks.LinesOfSaveText | to_do_cli/src/main.rs:79-83 | when no description holds a newline, the lines of the saved text are exactly the written task lines, one per task, in order |
| Tasks.ParseTaskLines | to_do_cli/src/main.rs:65-82 | the written lines of valid tasks parse back to those tasks in order |
| Tasks.LoadSaveRoundTrip | to_do_cli/src/main.rs:62-85 | if no description holds a tab or newline, loading the saved text gives back the same task list (empty descriptions included) |
| Tasks.ParsedLinesValid | to_do_cli/src/main.rs:65-71 | every task parsed from newline-free lines has a description without tab or newline |
| Tasks.LoadedTasksValid | to_do_cli/src/main.rs:62-76 | every loaded task can be saved faithfully |
| Tasks.SaveLoadedTasks | to_do_cli/src/main.rs:62-85 | saving the loaded tasks and loading again gives the same tasks, whatever the file held |
| TodoCli.MarkMatching | to_do_cli/src/main.rs:41-49 | marking keeps length and order; each task with the description becomes done and every other task is unchanged |
| TodoCli.MarkMatchingInPlace | to_do_cli/src/main.rs:43-49 | the in-place walk leaves the array equal to the marked list, and `found` holds exactly when some task had the description |
| TodoCli.MarkMatchingIdempotent | to_do_cli/src/main.rs:44-49 | marking twice with the same description equals marking once |
| TodoCli.MarkMatchingDone | to_do_cli/src/main.rs:43-49 | after marking, every matching task is done; the description is present afterwards exactly when it was before; with no match the list is unchanged |
| TodoCli.AddTask | to_do_cli/src/main.rs:28-32 | `add` writes the loaded tasks followed by a new undone task with the description |
| TodoCli.AddTaskPersists | to_do_cli/src/main.rs:28-32 | for a description without tab or newline, the written file loads as the old tasks followed by the new undone task |
| TodoCli.AddTabbedTaskIsLost | to_do_cli/src/main.rs:28-32 | a description with a tab (and no newline) is written as a line the next load skips: the file loads as the old tasks only |
| TodoCli.TabbedLineSkipped | to_do_cli/src/main.rs:66-67 | the line of a task whose description holds a tab does not parse |
| TodoCli.TaskLinesAppend | to_do_cli/src/main.rs:80-83 | the written lines of two lists are those of each, concatenated |
| TodoCli.MarkDone | to_do_cli/src/main.rs:41-57 | `done` writes the marked tasks whether or not one matched, and reports found exactly when some loaded task has the description |
| TodoCli.MarkDonePersists | to_do_cli/src/main.rs:41-50 | the file written by `done` loads as the marked task list |
| TodoCli.ParseCommand | to_do_cli/src/main.rs:89-99 | `add`, `list` and `done` select their command and anything else is unknown; the description is the second argument or empty when missing |
| TodoCli.Run | to_do_cli/src/main.rs:88-99 | each command's file text afterwards and reply: `add` and `done` write the file, `list` and an unknown command leave it; `done` replies Marked Done exactly when a task matched |
| Search.ReplaceChar | house_finder/search.py:68 | `replace(" ", "-")` keeps the length and changes exactly the spaces |
| Search.RemoveChar | house_finder/search.py:68 | `replace(",", "")` leaves no comma, adds no character and shortens by the number of commas |
| Search.Lower | house_finder/search.py:68 | `lower()` keeps the length and lower-cases each ASCII letter |
| Search.CountReplaced | house_finder/search.py:68 | turning spaces into dashes does not change the number of commas |
| Search.FormatAddress | house_finder/search.py:68 | the formatted address holds no space, no comma and no upper-case ASCII letter, and is shorter than the address by its number of commas |
| Search.FormatAddressIsSlug | house_finder/search.py:68 | the three-step formatting equals a one-pass, character-by-character slug |
| Search.LowerAppend | house_finder/search.py:68 | lower-casing works piece by piece |
| Search.RentalLookupUrl | house_finder/search.py:72 | the URL is the rental-manager results prefix followed by the formatted address |
| Search.GetRentalPrice | house_finder/search.py:55-110 | the price element's text when the request succeeded, the status is below 400 or at least 600, and the element exists; `Not Available` on a request error, an error status, a missing element or any other failure |
| Search.ScrapedRecords | house_finder/search.py:29-45 | at most one record per card, each of three fields whose link starts with the Redfin origin |
| Search.ScrapeRedfin | house_finder/search.py:25-45 | the loop over the cards returns exactly the specified records |
| Search.ScrapedRecordsAppend | house_finder/search.py:29-45 | records keep card order: the records of two runs of cards are those of each, concatenated |
| Search.SkipsIncompleteCard | house_finder/search.py:30-43 | a card missing its address, price or link `href` is skipped and the records of the cards around it are kept |
| Search.KeepsCompleteCard | house_finder/search.py:30-41 | a complete card gives `[address, price, "https://www.redfin.com" + href]` in its place |
| Search.ScrapeRedfinAsWritten | house_finder/search.py:29-45 | the scrape as written: on success at most one record per card; it fails only when some card has an address and a price but a link without `href` |
| Search.AsWrittenAgreesUnlessAborting | house_finder/search.py:29-45 | the scrape as written returns the same records as the skipping one exactly when no card has address and price but a link without `href`, and fails otherwise |
| Search.AsWrittenLosesAllOnHreflessLink | house_finder/search.py:38-43 | a good card followed by one whose link lacks `href`: as written the scrape fails, while the skipping one keeps the good record |
| Search.WithRentalPrices | house_finder/search.py:114-122 | the same number of records in the same order; each record is followed by exactly one new element, the rental price of its first element, and is otherwise unchanged |
| Search.AppendRentalPrices | house_finder/search.py:114-122 | the in-place loop leaves the list equal to the enriched records and returns the same list |
| Search.FindProperties | house_finder/search.py:133-147 | scraping then enriching gives at most one row per card, each `[address, price, link, rental price]` with the rental price looked up by the row's address |

## Findings

| source | as written | input that shows it | evidently intended | confidence | as-written member | corrected member |
|---|---|---|---|---|---|---|
| house_finder/search.py:38-43 | `'https://www.redfin.com' + listing.find('a').get('href')` raises `TypeError` when the card's first link has no `href`; the loop catches only `AttributeError`, so the whole scrape raises and no record is returned | a complete card followed by a card whose address and price are present and whose first `<a>` has no `href` | skip that card, as for any other missing field (the comment on line 43) | not executed | Search.AsWrittenLosesAllOnHreflessLink | Search.ScrapedRecords |

The as-written scrape is `Search.ScrapeRedfinAsWritten`. `ScrapeRedfin` and
`FindProperties` use the corrected `ScrapedRecords`.

## Left out

- Network and markup: `requests.get`, the request headers, `raise_for_status` and the BeautifulSoup lookups are abstract inputs (`Card`, `Fetch`). The listings URL built from the search filters (house_finder/search.py:8) is part of that fetch.
- GetRentalPrice: the lookup is a function of the URL, so a repeated lookup of the same address gives the same outcome; a real fetch may not.
- The one-second pause between rental lookups (house_finder/search.py:120) is timing only.
- CSV writing (`save_to_csv`, `save_rental_to_csv`) and all printing, including `Task::display`, `list_tasks` and the messages of `mark_done` and `main`: `Run` returns a `Reply` (and `Message` gives its printed line) instead.
- Reading and writing `tasks.txt`: the file is its text, passed in and returned. A file that cannot be read is loaded as empty text, so callers pass `""` for a missing file; a failed write, which panics, is not modelled.
- AppendRentalPrices: requires every record to have a first field; the program raises `IndexError` on an empty record, which `main` never passes (every scraped record has three fields).
- Run: a missing first argument panics in the program; it is a precondition here.
- FormatAddress: lower-cases ASCII letters only; Python's `str.lower()` also folds non-ASCII letters and can change the length then.
- AppendRentalPrices: the inner lists are values in an array, so two entries that are the same Python list (which would grow twice) are not modelled; `scrape_redfin` never produces such entries.
- Strings are sequences of characters; Rust's UTF-8 bytes and Python's code points are not distinguished.
- `house_finder/local_interface.py` (a form that calls `search.main` with financing arguments it does not accept) and `warp_server/src/main.rs` (a one-route web server) are not part of this model; no mortgage computation exists in the code.
