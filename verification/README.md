# termitask, modelled in Dafny

termitask is a terminal dashboard. It combines a persistent to-do list
with read-only panels for local git repositories. Each panel shows the
current branch, the last commit, and the repository's open GitHub issues
and pull requests. This project models the deterministic core of that
program and proves properties about it:

- **Task list** (`tasks.dfy`, module `Tasks`). A task is a done flag plus
  a text. Each list lives as one whole value under the key `"tasks"` in its
  own bucket of a key-value store (class `Db`, a map from bucket name to
  an optional task sequence). The list widget (`ListWidget`: rows plus a
  selected position) and the entry widget (`Entry`) are classes. The
  handlers `OnSubmit` and `OnItemActivated` change all three in place.
  `Draw` rebuilds the rows. `InitTaskList` fills a new list. Each method is
  specified in terms of the pure functions `Rows`, `Toggled`, `Put` and
  `CreateBucket`, and the properties are proved about those functions.
- **Row format** (`clock.dfy`, `digits.dfy`). A pending task shows as
  `"[ ] " + text`. A done task shows as `"[✓] " + text + " - done " +`
  the render-time clock, using Go's layout `02/01/2006 15:04`. The clock
  reading is a parameter (`Clock.Moment`). Reading a row back recovers the
  task (`ShowParses`), so the drawn rows determine the list.
- **Git panel rules** (`git.dfy`, module `Git`; `strings.dfy`). The first
  rule is the leftmost match of `origin[^@]*@github.com:([^/]*)/([^ ]*)`
  over the output of `git remote -v`. It is stated declaratively
  (`MatchesWith`) and proved equal to the scanning implementation in both
  directions. The second rule is the choice of at most five issues that are
  not pull requests. The third is the rows of the issue, pull-request and
  last-commit boxes, built by loops as in the source.
- **Focus registry** (`view.dfy`, module `View`). `UI.AddWidget` records a
  widget together with a handler bound to a key. When that handler fires,
  it unfocuses every widget registered at that moment and then focuses its
  own widget.

Some facts about the code that the model keeps:

- Tasks carry a boolean `Done` and no completion timestamp.
- The code has no clear-completed operation.
- Submitted text is not trimmed, so `"   "` becomes a task.
- A selection at or beyond the end of the list indexes out of range,
  so the model makes it a precondition.
- Only `initTaskList` stores an empty list for a bucket that has none.
  `getTasks` itself returns nil in that case.
- A blank bucket name is refused by the store, so no bucket is created
  and opening that list crashes; the model makes it a precondition of
  opening a list.

The done mark is U+2713 (✓). In the source text at
view/tasks/tasks.go:83 it appears as the three characters `âœ“`, which are
the UTF-8 bytes of U+2713 read as Windows-1252.

## Model

| member | source | states |
|---|---|---|
| `Tasks.Show` | view/tasks/tasks.go:81-86 | a row begins with the four-character mark of the task's state followed by the whole text; a pending row is exactly that, and only a done row goes on, with `" - done "` right after the text and then the rendering of the render-time clock, which parses back to exactly that reading |
| `Tasks.ShowParses` | view/tasks/tasks.go:81-86 | a row shows its task unambiguously: a pending task as `"[ ] "+text`, a done one as `"[✓] "+text+" - done "+DD/MM/YYYY HH:MM`; parsing the row gives back exactly the task (done flag and whole text) |
| `Tasks.Rows` | view/tasks/tasks.go:151-156 | the rows draw produces: exactly one per task, the i-th being the i-th task's row |
| `Tasks.RowsDetermineTasks` | view/tasks/tasks.go:151-156 | two task lists that draw the same rows are the same list |
| `Tasks.Toggled` | view/tasks/tasks.go:93 | flipping at s keeps the length and the text at s, negates done at s, and leaves every other task unchanged |
| `Tasks.ToggleTwice` | view/tasks/tasks.go:93 | flipping the same position twice restores the list |
| `Tasks.CreateBucket` | view/tasks/tasks.go:38-46 | a blank name leaves the store unchanged; otherwise creating a bucket adds the name, keeps every existing bucket's value, and a new bucket holds no value yet |
| `Tasks.CreateBucketIdempotent` | view/tasks/tasks.go:38-46 | creating a bucket twice is the same as creating it once |
| `Tasks.Put` | view/tasks/tasks.go:61-79 | saving sets the bucket's value to exactly the given list and changes no other bucket |
| `Tasks.PutOverwrites` | view/tasks/tasks.go:61-79 | a save replaces the earlier value entirely |
| `Tasks.Db.InitBucket` | view/tasks/tasks.go:38-46 | the store afterwards is `CreateBucket` of the old store, so a blank name or an existing bucket changes nothing |
| `Tasks.Db.GetTasks` | view/tasks/tasks.go:48-59 | the result is None exactly when the bucket's list was never saved; otherwise saving the returned list back leaves the store unchanged |
| `Tasks.Db.SaveTasks` | view/tasks/tasks.go:61-73 | the store afterwards is `Put` of the old store, and `GetTasks` then returns the saved list |
| `Tasks.Draw` | view/tasks/tasks.go:151-156 | the list's rows become `Rows(tl, now)` and the selection is cleared |
| `Tasks.OnItemActivated` | view/tasks/tasks.go:88-99 | with no selection (s < 0) store and widget are unchanged; otherwise the store holds `Toggled(old list, s)`, the rows show it, and the selection is restored to s |
| `Tasks.OnSubmit` | view/tasks/tasks.go:101-112 | empty text changes nothing; otherwise the store holds the old list plus one pending task with that text at the end, the rows show it, and the entry becomes `""` |
| `Tasks.InitTaskList` | view/tasks/tasks.go:114-124 | a stored list adds its rows in order and leaves the store alone; a missing value stores the empty list and adds no rows |
| `Tasks.OpenTaskList` | view/tasks/tasks.go:126-129 | for a non-blank name, an existing list is shown as stored; a new or empty bucket ends up holding `[]`, with no rows |
| `Tasks.ActivateTwice` | view/tasks/tasks.go:88-99 | activating the same row twice leaves the store as it was, with the selection kept |
| `Tasks.SubmitThenToggle` | view/tasks/tasks.go:101-124 | on a new list with a non-blank name, submitting a text, activating row 0 and reloading shows exactly one row: the text marked done at the render time |
| `Clock.ParseFormat` | view/tasks/tasks.go:83 | the `02/01/2006 15:04` rendering of a valid clock reading parses back to that reading |
| `Clock.FormatLength` | view/tasks/tasks.go:83 | the rendering is 16 characters for years below 10000 |
| `Digits.PaddedRoundTrip` | view/tasks/tasks.go:83 | a zero-padded layout field reads back as the number printed |
| `Digits.ValueOfDecimal` | view/git/git.go:107 | the `%v` decimal spelling of a number reads back as that number |
| `Strings.Split` | view/git/git.go:172-173 | there is at least one piece; joining the pieces with the separator gives back the string, and no piece contains the separator |
| `Strings.SplitLeftmost` | view/git/git.go:172-173 | each cut is at the leftmost occurrence: no occurrence of the separator begins anywhere inside a piece, at the piece's position in the string |
| `Strings.SplitJoin` | view/git/git.go:173 | fields lacking the separator's first character are recovered by splitting their join |
| `Strings.TrimSuffix` | view/git/git.go:67 | the result is the input, or the input with exactly one copy of the suffix removed from the end (removed exactly when present) |
| `Git.MatchAtSound` | view/git/git.go:62-65 | a match found at i is a match of the pattern, with owner and path the two groups |
| `Git.MatchAtComplete` | view/git/git.go:62-65 | every match of the pattern at i is found, with the same groups |
| `Git.Leftmost` | view/git/git.go:64-65 | the search returns the earliest index where the pattern matches, or none if it matches nowhere |
| `Git.GithubInfo` | view/git/git.go:62-69 | success exactly when the pattern matches somewhere; failure carries "Is not github project: " + path |
| `Git.GithubInfoGroups` | view/git/git.go:62-67 | when the pattern matches, the result is a success; the owner holds no `/` and the repo no space; they are the groups of a match, the repo with one `.git` suffix removed if present |
| `Git.GithubInfoLeftmost` | view/git/git.go:64-67 | the leftmost match decides the owner and repository |
| `Git.SshRemoteLine` | view/git/git.go:62-67 | a line `origin…@github.com:owner/repo.git …` yields exactly (owner, repo) |
| `Git.PlainIssues` | view/git/git.go:137-139 | keeps only issues without pull-request links, and keeps every one of them |
| `Git.PlainIssuesAppend` | view/git/git.go:137-151 | the filter distributes over concatenation, so received order is kept |
| `Git.ShownIssues` | view/git/git.go:136-151 | at most five issues are shown: the first min(5, n) of the n plain issues |
| `Git.ShownStep` | view/git/git.go:136-151 | one more received issue is shown exactly when it is plain and fewer than five are shown |
| `Git.HeadlineFields` | view/git/git.go:107-115 | an issue or pull-request row has three labels: `#` and a number that reads back as the issue number (after a `-` when negative), the title, and the login in angle brackets |
| `Git.IssueRows` | view/git/git.go:140-149 | one `#number`, title, `<login>` row per shown issue, in order |
| `Git.AddIssues` | view/git/git.go:131-155 | a "Last Issues" box exists exactly when the received list is non-empty (even if it is all pull requests), and its rows are those of the first five plain issues |
| `Git.AddPrs` | view/git/git.go:101-119 | a "Last PRs" box exists exactly when there are pull requests, with one `#number`, title, `<login>` row per pull request, in order |
| `Git.LogRow` | view/git/git.go:172-180 | a log row has four labels: hash and subject without `;;`, the date in parentheses, the author in angle brackets; for a four-field line, unwrapping date and author and joining with `;;` gives back the line |
| `Git.LogRowOfFields` | view/git/git.go:172-180 | a `%h;;%s;;%cr;;%an` line with no `;` in its fields gives the row hash, subject, `(date)`, `<author>` |
| `Git.AddLog` | view/git/git.go:160-191 | the box is titled "Currently on " + branch and has one row per output line, in order, split on `;;` |
| `View.UI.AddWidget` | view/view.go:22-28 | appends w after the earlier widgets, in registration order, and records a handler for the key that focuses w |
| `View.UI.GetWidgets` | view/view.go:40-42 | the registered widgets, in registration order; every registered handler's widget is among them |
| `View.UI.UnFocusedAll` | view/view.go:34-38 | every registered widget is unfocused and the list is unchanged |
| `View.UI.Focus` | view/view.go:24-27 | after the handler, its widget is focused and every other registered widget is not |
| `View.UI.RunHandler` | view/view.go:24-27 | firing the k-th registered handler leaves exactly its widget focused among the registered widgets |
| `View.FocusAfterLateRegistration` | view/view.go:22-38 | a handler registered before another widget still unfocuses that widget when it fires |

## Left out

- The bolt database file, its transactions and the `db.Update`/`db.View` plumbing (view/tasks/tasks.go:38-79) are not modelled. The store is a map, and one operation is one atomic step.
- The JSON encoding (view/tasks/tasks.go:21-36) is not modelled. The store holds task lists directly, so decoding an encoded list gives that list. Corrupt bytes are not modelled.
- A blank bucket name: the store refuses it, no bucket is created, and reading the list then crashes (view/tasks/tasks.go:38-59). `OpenTaskList` and `SubmitThenToggle` require a non-blank name.
- Reading a bucket that was never created, dereferencing the nil list of a bucket that was never written (tasks.go:92, 105), and a selection at or past the end of the list (tasks.go:93) all crash the program. They appear as preconditions.
- `time.Now()` is a parameter. The source reads the clock once per done row. The model uses one reading for a whole redraw. `Clock.Valid` bounds the day by 31 whatever the month.
- The tui-go widgets are not part of this model. The list, the entry and the focus flag are modelled as described above. `RemoveItems` clears the rows and the selection (-1). `AddItems` appends. `Select` sets the selection.
- Key dispatch in tui-go is not modelled. `UI.RunHandler(k)` runs the handler of the k-th registration directly.
- Layout, styling and themes are not modelled: `NewTaskBox` beyond its first three calls, `NewGitBox`, `Append` and `NewUI` (view/view.go:52-71).
- The GitHub API calls and the OAuth client (view/git/git.go:19-37, view/view.go:73-80) are not modelled. The issue and pull-request lists become inputs. A missing number, title or user login becomes 0 or `""`.
- Running `git` (view/git/git.go:39-61, 163-170) is not modelled. Its output becomes an input, and so does the raw branch output used in the log box title. Command failures and their `log.Fatal` are left out.
- `addPrs` and `addIssues` end the program with `log.Fatal` when `githubInfo` fails (view/git/git.go:95-97, 125-127). `AddPrs` and `AddIssues` take the fetched lists as inputs, so that exit is not modelled; `GithubInfo` returns the failure.
- A commit subject that itself contains `;;` splits into extra fields, so the date and author labels show parts of the subject and the real date and author are dropped (view/git/git.go:173-180). `LogRow` reproduces this shift; `LogRowOfFields` promises the intended row only for fields without `;`.
- `main.go` is not part of this model.
- Go's regexp matches UTF-8 text. The model matches a sequence of characters, so invalid UTF-8 is not covered.
