# Lumo: task selection, setup wizard and personal assistant, in Dafny

This project models the logic of three scripts of the Lumo motivation bot and proves
properties about it.

- **Daily motivation** (`daily_motivation.py`), in `motivation.dfy`, module `DailyMotivation`.
  - `load_tasks` keeps the titles of the tasks that are not marked done.
  - `select_priority_task` parses the language model's `Task:` / `Reason:` reply.
  - `match_task` looks for the parsed title among the task titles, ignoring letter case and
    accepting a substring.
  - It falls back to the first task when nothing matches.
- **Setup wizard** (`meso_setup.py`), in `setup.dfy`, module `MesoSetup`.
  - `ask_input` strips the answer and falls back to a default.
  - The wizard asks six yes/no focus-area questions, then a configurable number of goal
    questions.
  - The folders of the chosen focus areas are created from `folder_map`.
  - The starter journal, task list and goal list are written.
  - The configuration record and the goal list are saved.
- **Personal assistant** (`meso_core.py`), in `core.dfy`, module `MesoCore`.
  - Markdown documents are collected from `journal`, `goals` and `notes`.
  - A saved vector store is loaded when there is one. Otherwise one is built and saved.
  - The question loop stops at `exit` or `quit`, in any letter case.

Shared modules:
- `common.dfy`: `Options` and `Seqs`, the first-match search.
- `text.dfy`: `Text`, which models Python's `str` methods as the scripts use them:
  - `lower` and `strip`;
  - `replace(p, "")`;
  - `rstrip(c)`;
  - `splitlines`;
  - `startswith` and `in`;
  - `join`;
  - `int()`;
  - string ordering.
- `json.dfy`: `Json`, JSON values. An object is a list of members, and the last duplicate
  key wins, as in `json.load`.
- `storage.dfy`: `Storage`, the data folder as a `Disk` object. It holds a set of
  directories and a map from path to file content. `open(path, "w")` fails when the
  parent directory is missing.

Inputs the scripts read interactively or from outside are parameters:
- the language model's reply;
- the lines typed at `input()`;
- the `DEFAULT_GOAL_COUNT` variable;
- today's date string;
- the document loader, text splitter, index builder and question-answering chain.

Where a script raises an exception, the model returns `None` or `false`. Examples are a
malformed task file, a missing folder, or a store folder without a loadable index.
`select_priority_task` is never called with an empty task list: the `__main__` block
takes another branch when `load_tasks()` returns nothing (daily_motivation.py:143), so
`SelectPriorityTask` requires at least one task.

## Model

| member | source | states |
|---|---|---|
| Seqs.FirstWhere | daily_motivation.py:88-89 | Returns the first position satisfying the test, or `None` exactly when no position does. This is what `next(... for ... if ...)` and a `for`/`return` loop select. |
| Seqs.FirstWhereAt | daily_motivation.py:52-54 | When no position before `n` passes the test and position `n` does (or `n` is the end), the search stops at `n` (gives `None` at the end). |
| Seqs.FirstWhereAgree | daily_motivation.py:52-55 | Two searches whose tests agree position by position stop at the same position. |
| Text.Lower | daily_motivation.py:51 | `lower()` keeps the length, changes only the letter case, and leaves no upper-case letter. |
| Text.LowerSameUpToCase | daily_motivation.py:51 | Strings that differ only in letter case lower-case to the same string. |
| Text.LStrip | meso_setup.py:13 | Gives a suffix of the input that does not start with whitespace. |
| Text.LStripDropsSpace | meso_setup.py:13 | Every character cut off at the front is whitespace. |
| Text.RStrip | meso_setup.py:13 | Gives a prefix of the input that does not end with whitespace. |
| Text.RStripDropsSpace | meso_setup.py:13 | Every character cut off at the end is whitespace. |
| Text.Strip | meso_setup.py:13 | The result is no longer than the input and neither starts nor ends with whitespace. |
| Text.StripDropsOnlySpace | meso_setup.py:13 | `strip()` gives a slice of the input with only whitespace before it and only whitespace after it. |
| Text.StripIsSlice | daily_motivation.py:53 | The stripped string is a substring of the original. |
| Text.StripNoSurroundingSpace | meso_setup.py:13 | A string without surrounding whitespace is unchanged by `strip()`. |
| Text.StripIdempotent | daily_motivation.py:87 | Stripping twice is stripping once. |
| Text.RStripChar | daily_motivation.py:51 | `rstrip(".")` removes only trailing dots: the result is a prefix, it does not end in a dot, and everything cut off was a dot. |
| Text.Contains | daily_motivation.py:53 | `needle in hay` holds only when the needle is no longer than the text. |
| Text.ContainsEmpty | daily_motivation.py:53 | `"" in t` holds for every `t`. |
| Text.ContainsSlice | daily_motivation.py:53 | Every slice of a string is contained in it. |
| Text.RemoveAll | daily_motivation.py:91 | `replace(p, "")` never lengthens a string and introduces no new character. |
| Text.RemoveAllAbsent | daily_motivation.py:92 | `replace(p, "")` leaves a string without `p` unchanged. |
| Text.RemoveAllFirst | daily_motivation.py:51 | When the first occurrence of `p` in `x + p + y` is the one right after `x`, `replace(p, "")` keeps `x`, deletes that occurrence and carries on with `y`. |
| Text.RemoveAllKeepPrefix | daily_motivation.py:51 | Characters that cannot start the pattern, followed by at least a pattern's length of text, are all kept. |
| Text.RemoveAllMiddle | daily_motivation.py:51 | The pattern between a part that cannot start it and a last window that does not start it is the one occurrence deleted. |
| Text.RemoveAllLastWindow | daily_motivation.py:51 | A final window as long as the pattern that does not start like it is kept. |
| Text.DropPrefix | daily_motivation.py:51 | `removeprefix(p)` removes `p` when it is a prefix, and otherwise changes nothing. |
| Text.LineEnd | daily_motivation.py:87 | The end of a line is the first line-break at or after the start, or the end of the text. |
| Text.SplitLinesNoBreak | daily_motivation.py:87 | No line produced by `splitlines()` contains a line break. |
| Text.SplitLinesCons | meso_setup.py:138 | A line followed by `\n` and the rest splits into that line followed by the lines of the rest. |
| Text.SplitLinesLast | daily_motivation.py:87 | A non-empty text without line breaks is one line. |
| Text.Join | meso_setup.py:127 | Joining no parts gives the empty string. Otherwise the result starts with the first part and ends with the last. |
| Text.SplitLinesJoin | meso_setup.py:127 | `splitlines` undoes `"\n".join` of break-free lines whose last line is non-empty. |
| Text.DigitChar | meso_setup.py:40 | Gives the digit character of a value below ten, and reading it back gives the value. |
| Text.ParseInt | meso_setup.py:40 | `int()` of a blank text fails. A value read from text starting with `-` is not positive; any other value read is not negative. |
| Text.ParseIntIgnoresSurroundingSpace | meso_setup.py:40 | Surrounding whitespace does not change what `int()` reads. |
| Text.ParseStripped | meso_setup.py:40 | On text without surrounding whitespace: the empty text fails, and the sign of a value read follows the leading `-`. |
| Text.DecimalString | meso_setup.py:40 | Writes a number in decimal as a non-empty string of digits. |
| Text.DecimalValueOfString | meso_setup.py:40 | Reading back the decimal digits of `n` gives `n`. |
| Text.ParseIntUnsigned | meso_setup.py:40 | `int()` of a string of digits is its decimal value. |
| Text.ParseStrippedDigits | meso_setup.py:40 | Without sign or whitespace, a string of digits reads as its decimal value. |
| Text.ParseIntDecimal | meso_setup.py:40 | `int(str(n)) == n` for every natural number. |
| Text.LexLess | meso_setup.py:75 | A proper prefix sorts before the longer string, and no string sorts before one of its own prefixes. |
| Text.LexLessIrreflexive | meso_setup.py:75 | No string sorts before itself. |
| Text.LexLessAsymmetric | meso_setup.py:75 | String order is asymmetric. |
| Json.Get | daily_motivation.py:32 | A key lookup gives the value of the last member with that key, as `json.load` keeps the last duplicate. It gives none exactly when the key is absent. |
| Json.GetOr | daily_motivation.py:32 | `get(key, default)` gives the default when the key is absent, and otherwise the value of the last member with that key. |
| Json.Truthy | daily_motivation.py:32 | A JSON value is falsy exactly when it is `null`, `false`, `0`, `""`, `[]` or `{}`. |
| Json.StringArray | meso_setup.py:108 | A list of strings becomes a JSON array of the same length holding each string in place. |
| Json.AsStringsOfStringArray | meso_setup.py:107-108 | Reading back a saved string list gives the same list. |
| Storage.Disk.constructor | meso_setup.py:8 | The initial state of the data folder at `DATA_PATH` before a script runs: the given directories and files. |
| Storage.Disk.MakeDirs | meso_setup.py:72 | `os.makedirs(..., exist_ok=True)` adds the directory and leaves the files unchanged. |
| Storage.Disk.WriteFile | meso_setup.py:121 | `open(path, "w")` succeeds exactly when the folder exists. On success it writes that one file; otherwise nothing changes. |
| DailyMotivation.IsPending | daily_motivation.py:32 | `not t.get("done", False)`: a task object is pending exactly when it has no `done` member or that member is falsy. |
| DailyMotivation.TitleOf | daily_motivation.py:32 | Gives the string stored under `title` in a task object. Gives nothing when the task is not an object or has no string title. |
| DailyMotivation.PendingTitles | daily_motivation.py:32 | The filtered titles are never more than the tasks. |
| DailyMotivation.LoadTasks | daily_motivation.py:26-32 | A missing file gives an empty list. A file that is not a JSON object raises. A file without `tasks` gives an empty list. A `tasks` array is filtered. An empty object or string under `tasks` gives an empty list, and any other value raises. |
| DailyMotivation.LoadedTasksCameFromList | daily_motivation.py:26-32 | A non-empty loaded list is the filtered `tasks` array of the file, and that array is well-formed. |
| DailyMotivation.PendingTitlesAppend | daily_motivation.py:32 | On well-formed task lists the filter never raises, and filtering a concatenation concatenates the results, so order is kept. |
| DailyMotivation.PendingTitlesDefined | daily_motivation.py:32 | The filter raises on no well-formed task list. |
| DailyMotivation.PendingTitlesWellFormed | daily_motivation.py:32 | The filter succeeds only on lists of task objects whose pending tasks all carry a string title. |
| DailyMotivation.PendingTitlesMembers | daily_motivation.py:32 | A title is returned exactly when some task not marked done carries it. |
| DailyMotivation.Normalize | daily_motivation.py:51 | The normalised key is no longer than the reply and does not end in a dot. |
| DailyMotivation.Matches | daily_motivation.py:53 | An empty key matches every title, and a matching key is no longer than the title. |
| DailyMotivation.MatchIndex | daily_motivation.py:52-55 | Gives the first task whose lower-cased, stripped title contains the key. It gives none exactly when no title does. |
| DailyMotivation.MatchTask | daily_motivation.py:50-55 | The task returned is one of the tasks and contains the key. `None` is returned exactly when no task contains it. |
| DailyMotivation.MatchTaskFirst | daily_motivation.py:52-54 | When task `i` is the first match, `match_task` returns task `i`. |
| DailyMotivation.MatchIgnoresCase | daily_motivation.py:51-53 | Changing the letter case of the reply or of any title does not change which position matches. |
| DailyMotivation.MatchTaskEmptyKey | daily_motivation.py:53 | An empty key matches the first task. |
| DailyMotivation.ReplyLines | daily_motivation.py:83-87 | Every reply line is stripped. |
| DailyMotivation.StripEach | daily_motivation.py:87 | One stripped line per raw line, in order. |
| DailyMotivation.ReplyLinesOneLine | daily_motivation.py:83-87 | A non-empty reply without line breaks or surrounding whitespace is a single reply line. |
| DailyMotivation.FieldLine | daily_motivation.py:88-89 | The field line is empty, or it is a reply line starting with the label in any letter case. |
| DailyMotivation.FieldLineFirst | daily_motivation.py:88-89 | The first line starting with the label is the one taken. |
| DailyMotivation.Field | daily_motivation.py:88-92 | A parsed field is stripped, and it is empty when no reply line starts with the label. |
| DailyMotivation.TaskField | daily_motivation.py:91 | The parsed task is stripped. |
| DailyMotivation.ReasonField | daily_motivation.py:92 | The parsed reason is stripped. |
| DailyMotivation.TaskFieldOneLine | daily_motivation.py:88-91 | A one-line reply starting with `task:` in any letter case parses to that line with `Task:` removed and stripped. |
| DailyMotivation.NoReasonOneLine | daily_motivation.py:89-92 | A one-line reply that does not start with `reason:` has an empty reason. |
| DailyMotivation.NoTaskLineMatchesFirst | daily_motivation.py:88-94 | A reply without a `Task:` line gives an empty task, which matches the first task. |
| DailyMotivation.Choose | daily_motivation.py:62-98 | The full decision. With one task, that task and the only-task reason. With more, the matched task when the match is a non-empty title, with the given reason or the default reason; otherwise the first task with the fallback reason. The chosen task is always in the list. |
| DailyMotivation.SelectPriorityTask | daily_motivation.py:58-98 | The chosen task is always one of the tasks, and a single task is chosen with the only-task reason. |
| DailyMotivation.SelectPriorityTaskDecides | daily_motivation.py:87-98 | With two or more tasks, the parsed reply decides as `Choose` states: a non-empty matched title with the parsed or the default reason, and otherwise the first task with the fallback reason. |
| DailyMotivation.LoadTasksList | daily_motivation.py:32 | A task list stored under `"tasks"` is filtered as a list. |
| DailyMotivation.ChosenTaskIsPending | daily_motivation.py:142-167 | With `load_tasks` feeding `select_priority_task`, the chosen task is the title of a task of the file's `tasks` array that is not marked done. |
| DailyMotivation.NormalizeDeletesInnerTo | daily_motivation.py:51 | The reply title "Go to gym" normalises to "go gym". |
| DailyMotivation.RemoveInnerTo | daily_motivation.py:51 | `replace("to ", "")` turns "go to gym" into "go gym". |
| DailyMotivation.ExactTitleNotMatched | daily_motivation.py:50-55 | With tasks "Email Bob" and "Go to gym", the exact title "Go to gym" matches no task. |
| DailyMotivation.TaskFieldExample | daily_motivation.py:87-91 | The reply "Task: Go to gym" parses to the task "Go to gym". |
| DailyMotivation.ReasonFieldAbsent | daily_motivation.py:89-92 | The reply "Task: Go to gym" has an empty reason. |
| DailyMotivation.ExactTitleNotRecognised | daily_motivation.py:94-98 | The reply "Task: Go to gym" selects "Email Bob" with the fallback reason. |
| DailyMotivation.ExactTitleFallback | daily_motivation.py:94-98 | With tasks "Email Bob" and "Go to gym", the parsed task "Go to gym" falls back to "Email Bob" with the fallback reason, whatever the reason. |
| DailyMotivation.NormalizeFixed | daily_motivation.py:51 | The corrected key is a substring of the lower-cased, stripped reply. |
| DailyMotivation.TrimmedIsSlice | daily_motivation.py:51 | Removing a prefix and trailing dots leaves a substring of the original. |
| DailyMotivation.NormalizeFixedUnchanged | daily_motivation.py:51 | A reply that, lower-cased and stripped, neither starts with "to " nor ends in a dot is its own corrected key. |
| DailyMotivation.NormalizeFixedGoToGym | daily_motivation.py:51 | The corrected key of "Go to gym" is "go to gym". |
| DailyMotivation.MatchTaskFixed | daily_motivation.py:50-55 | Corrected `match_task`. It returns a task containing the key, and `None` exactly when no task contains it. |
| DailyMotivation.MatchTaskFixedAt | daily_motivation.py:52-54 | When task `i` is the first to contain the corrected key, corrected `match_task` returns task `i`. |
| DailyMotivation.ExactTitleRecognisedFixed | daily_motivation.py:50-55 | With the corrected key, a reply that copies any listed title always matches some task. |
| DailyMotivation.ExactTitleMatchedFixed | daily_motivation.py:50-55 | With the corrected key, "Go to gym" matches "Go to gym" and not "Email Bob". |
| DailyMotivation.ExactTitleChosenFixed | daily_motivation.py:58-98 | With the corrected key, the reply "Task: Go to gym" selects "Go to gym" with the default reason. |
| DailyMotivation.ExactTitleChoiceFixed | daily_motivation.py:94-98 | With the corrected key, the parsed task "Go to gym" and no reason select "Go to gym" with the default reason. |
| DailyMotivation.SelectPriorityTaskFixed | daily_motivation.py:58-98 | Corrected selection. The task is in the list, and a single task is chosen with the only-task reason. |
| DailyMotivation.SelectPriorityTaskFixedDecides | daily_motivation.py:87-98 | Corrected selection with two or more tasks: the same decision as `SelectPriorityTaskDecides`, with the corrected match. |
| DailyMotivation.ExactReplyRecognisedFixed | daily_motivation.py:87-98 | Corrected selection: a reply naming a listed title (none of them empty) keeps its reason, or gets the default reason when it has none. |
| DailyMotivation.ChooseFixed | daily_motivation.py:62-98 | Corrected decision: the full case split of `Choose` with the corrected match, and a listed title (none empty) is always recognised. |
| DailyMotivation.ChosenTaskIsPendingFixed | daily_motivation.py:142-167 | With the corrected key too, the chosen task is the title of a task of the file's `tasks` array that is not marked done. |
| MesoSetup.AskInput | meso_setup.py:11-13 | An all-whitespace answer gives the default. Any other result is the stripped, non-empty answer. With a default there is always a value. |
| MesoSetup.AcceptsIff | meso_setup.py:32-33 | A focus question is answered yes exactly when the stripped answer is `y` or `Y`. An empty answer defaults to no. |
| MesoSetup.LowerIsY | meso_setup.py:33 | `response.lower() == "y"` holds exactly for `y` and `Y`. |
| MesoSetup.Decisions | meso_setup.py:31-33 | One yes/no decision per answer, each being whether that answer accepts. |
| MesoSetup.Pick | meso_setup.py:30-35 | Picks no more options than there are. |
| MesoSetup.StepFocusAreas | meso_setup.py:19-35 | The selected areas are the options whose answer accepted, in option order. |
| MesoSetup.AskEachOption | meso_setup.py:30-35 | The question loop appends exactly the accepted options, in order. |
| MesoSetup.PickMembers | meso_setup.py:31-34 | An option is selected exactly when its own answer accepted it. |
| MesoSetup.FocusAreaSelectedIff | meso_setup.py:21-34 | Each of the six focus areas is selected exactly when the answer to its question accepts it. |
| MesoSetup.PickSubsequence | meso_setup.py:31-34 | The selection keeps the order of the option list. |
| MesoSetup.PickDistinct | meso_setup.py:31-34 | No option is selected twice. |
| MesoSetup.FocusOptionsDistinct | meso_setup.py:21-28 | The six options are distinct. |
| MesoSetup.FocusAreasShape | meso_setup.py:19-35 | The focus areas form a duplicate-free, order-keeping selection of the six options. |
| MesoSetup.AskInputStripped | meso_setup.py:13 | A non-default answer has no surrounding whitespace. |
| MesoSetup.GoalCount | meso_setup.py:39-42 | The goal count is what `int()` reads from the variable when it is set and readable, and 3 otherwise. |
| MesoSetup.GoalCountDecimal | meso_setup.py:40 | A variable holding a decimal number sets the count to that number. |
| MesoSetup.Rounds | meso_setup.py:46 | `range(1, count + 1)` asks `count` questions, and none when `count` is not positive. |
| MesoSetup.Replies | meso_setup.py:47 | Each goal reply is `ask_input` of its answer with no default. |
| MesoSetup.Kept | meso_setup.py:48-49 | Never keeps more goals than there are replies. |
| MesoSetup.StepPersonalGoals | meso_setup.py:37-51 | The goals are the truthy replies to the first `count` answers, in order. |
| MesoSetup.AskGoals | meso_setup.py:44-51 | The question loop keeps exactly the truthy replies, in order. |
| MesoSetup.KeptMembers | meso_setup.py:48-49 | A goal is kept exactly when it is a non-empty reply. |
| MesoSetup.KeptAll | meso_setup.py:48-49 | When every reply is non-empty, every reply is kept in order. |
| MesoSetup.GoalIsStrippedAnswer | meso_setup.py:47-49 | Every kept goal is non-empty and is the stripped form of some answer. |
| MesoSetup.FoldersFor | meso_setup.py:69 | An area missing from `folder_map` gives no folder, and every folder named is one of the seven. |
| MesoSetup.AreaFolders | meso_setup.py:66-73 | The created set holds only the seven known folders. |
| MesoSetup.AreaFoldersMembers | meso_setup.py:66-73 | A folder is created exactly when some chosen area maps to it. |
| MesoSetup.StepGenerateFolders | meso_setup.py:53-75 | The directories gain exactly the folders of the chosen areas, and the files are untouched. The report lists the sorted created folders. |
| MesoSetup.MakeFolders | meso_setup.py:70-73 | The inner loop adds exactly the area's folders to the directories and to the created set, and touches no file. |
| MesoSetup.Keep | meso_setup.py:75 | Keeps exactly the listed elements that are in the set. |
| MesoSetup.SortedFolders | meso_setup.py:75 | The reported list holds exactly the created folders. |
| MesoSetup.LexLessByFirst | meso_setup.py:75 | Strings whose first characters differ sort by those characters. |
| MesoSetup.AllFoldersSorted | meso_setup.py:57-64 | The seven folder names are in strictly increasing order. |
| MesoSetup.KeepSorted | meso_setup.py:75 | Keeping some elements of a strictly increasing list leaves it strictly increasing. |
| MesoSetup.SortedFoldersSpec | meso_setup.py:75 | The report is the created set in increasing order, each folder once. |
| MesoSetup.GoalBlock | meso_setup.py:127 | The goal block is `-` alone without goals. Otherwise it starts with `-` and the first goal and ends with the last goal. |
| MesoSetup.JournalTextLines | meso_setup.py:120-128 | The journal reads line by line as the title with the date, a blank line, the greeting, a blank line, two questions each followed by a blank line, the progress question, one `-<goal>` line per goal (a lone `-` without goals), a blank line and the last question. |
| MesoSetup.GoalBlockThen | meso_setup.py:127 | The goal block and its line break read as one `-<goal>` line per goal (a lone `-` without goals), followed by the lines after it. |
| MesoSetup.GoalBlockLines | meso_setup.py:127 | With at least one goal, the journal's goal block reads as one `-<goal>` line per goal. |
| MesoSetup.GoalBlockNoGoals | meso_setup.py:127 | With no goals the block is a single `-` line. |
| MesoSetup.Checklist | meso_setup.py:139-140 | The checklist is empty exactly when there are no goals, and otherwise ends with a line break. |
| MesoSetup.ChecklistAppend | meso_setup.py:139-140 | Writing one more goal appends its checklist line. |
| MesoSetup.GoalsMarkdown | meso_setup.py:136-140 | The `goals.md` text is the header followed by one checklist line per goal. |
| MesoSetup.GoalsMarkdownLines | meso_setup.py:136-140 | `goals.md` reads as the title line, a blank line, and one checklist line per goal in order. |
| MesoSetup.HeaderLines | meso_setup.py:138 | The header is a title line followed by a blank line. |
| MesoSetup.ChecklistLines | meso_setup.py:139-140 | The checklist reads as one `-[ ] <goal>` line per goal. |
| MesoSetup.StarterTasksLoadEmpty | meso_setup.py:131-133 | The starter task file reads back through `load_tasks` as an empty task list. |
| MesoSetup.StarterFiles | meso_setup.py:116-140 | No file is removed, and only the three starter paths can be added. Without a `journal` folder nothing is written. With one, the journal entry holds the journal text. |
| MesoSetup.StarterFilesKeepOthers | meso_setup.py:116-140 | Writing the starter files touches no file other than the journal entry, `tasks/today.json` and `goals/goals.md`. |
| MesoSetup.StarterFilesComplete | meso_setup.py:116-140 | When `journal`, `tasks` and `goals` exist, all three files are written with their contents. |
| MesoSetup.StepGenerateStarterFiles | meso_setup.py:116-140 | Succeeds exactly when `journal`, `tasks` and `goals` all exist. The files are written in order, stopping at the first missing folder, and no other file changes. |
| MesoSetup.ConfigJson | meso_setup.py:96-100 | The saved record is an object with three members: `name` (`null` when unanswered), and `focus_areas` and `goals` as string arrays. |
| MesoSetup.ConfigRoundTrip | meso_setup.py:96-103 | Reading back the saved configuration gives the name, focus areas and goals gathered. |
| MesoSetup.SavedFilesAreNotStarterFiles | meso_setup.py:102-136 | `user_config.json` and `goals.json` are not starter-file paths. |
| MesoSetup.Saved | meso_setup.py:102-108 | Saving adds or replaces exactly `user_config.json` (the record) and `goals.json` (the goal list); every other file is kept. |
| MesoSetup.SaveConfig | meso_setup.py:96-108 | Writes exactly the configuration file and the goal list. |
| MesoSetup.AskAndSave | meso_setup.py:80-108 | The config fields come from the three steps. The directories gain the data folder and the area folders. The files are the old files with the record and the goal list saved, and nothing else changed. |
| MesoSetup.RunSetup | meso_setup.py:78-114 | The config fields come from the three steps. The directories gain the data folder and the area folders. The files are the saved ones with the starter files written in order up to the first missing folder. No other file changes. Setup completes exactly when the three starter folders exist. |
| MesoSetup.HealthOnlyLeavesJournalMissing | meso_setup.py:110-121 | Choosing only "Health and habits" selects that one area and creates no `journal` folder. |
| MesoSetup.HealthOnlySetupStops | meso_setup.py:78-121 | On a fresh data folder, answering yes only to "Health and habits" stops the setup before the starter files are written. |
| MesoSetup.HealthOnlyDecisions | meso_setup.py:32-33 | Answering `y` only to the third question accepts that question alone. |
| MesoSetup.HealthOnlyFolders | meso_setup.py:57-73 | "Health and habits" alone creates exactly `logs` and `habits`. |
| MesoSetup.PickSingle | meso_setup.py:30-35 | When exactly one question is accepted, only its option is selected. |
| MesoSetup.PickNone | meso_setup.py:30-35 | When no question is accepted, nothing is selected. |
| MesoSetup.RunSetupFixed | meso_setup.py:78-140 | Corrected setup. It always completes. The record, the goal list and all three starter files are written with their contents, and no other file changes. |
| MesoSetup.StepGenerateStarterFilesFixed | meso_setup.py:116-140 | Corrected starter files. The three folders are made first, every write succeeds, and no other file changes. |
| MesoCore.Collected | meso_core.py:25-29 | No documents when no listed folder exists. Every document of an existing listed folder is in the result, which is at least as long as that folder's documents. |
| MesoCore.LoadDocuments | meso_core.py:19-32 | The documents are those of `journal`, then `goals`, then `notes`, skipping missing folders. The count printed is their total. |
| MesoCore.ScanFolders | meso_core.py:25-29 | The loop collects the documents of the existing folders, in folder order. |
| MesoCore.SubfoldersInOrder | meso_core.py:22-29 | The scan over the three subfolders is the concatenation journal, goals, notes. |
| MesoCore.CollectedFromPresentFolders | meso_core.py:25-29 | Every loaded document comes from a listed folder that exists. |
| MesoCore.StoreLocation.constructor | meso_core.py:14 | The store folder starts with the given path state and saved index. |
| MesoCore.GetOrCreateVectorStore | meso_core.py:34-51 | An existing path is loaded and nothing is built; loading fails when the folder holds no index. Otherwise the documents are split into chunks of 500 with overlap 100, indexed with `all-MiniLM-L6-v2`, and saved. Afterwards the path exists and holds any store returned. |
| MesoCore.SecondRunLoads | meso_core.py:34-51 | A store built and saved on a first run is loaded back on the next run, and nothing is built. |
| MesoCore.ExitWordsAnyCase | meso_core.py:75 | The exit words are `exit` and `quit` in any letter case, and nothing else. |
| MesoCore.UpperExitStops | meso_core.py:75 | `EXIT` ends the session. |
| MesoCore.PaddedExitContinues | meso_core.py:75 | ` exit` with a leading blank is not an exit word. |
| MesoCore.StartChat | meso_core.py:69-78 | The questions asked are the lines before the first exit word, each answered by the chain. The session ends on an exit word, or when input runs out. |
| MesoCore.ChatStopsAtFirstExit | meso_core.py:73-76 | The questions asked end exactly at the first exit word. |
| MesoCore.RunAssistant | meso_core.py:80-84 | The store is the loaded one, or is built from the collected documents. The path then exists and holds the store. When loading fails nothing is asked. Otherwise the questions are the lines before the first exit word, each answered by the chain built on that store. |

## Left out

- `daily_journal.py` is not part of this model.
- Calls to the language model (`llm.invoke`) are left out. The prompt texts and the email
  and log output of `daily_motivation.py` (`generate_motivational_tag`, `generate_message`,
  `log_message`, `send_email`) are also left out. The reply is a parameter.
- `load_goals` is left out. Its result only feeds the prompt; the exceptions it can raise
  are listed in the next line.
- DailyMotivation.SelectPriorityTask: `load_goals()` and `", ".join(goals)`
  (daily_motivation.py:59-60) run before the one-task shortcut. A malformed `goals.json` or
  a goal list holding non-strings makes `select_priority_task` raise even with one task.
  The model does not capture this.
- The language-model libraries are function parameters:
  - the document loader (`DirectoryLoader`);
  - the text splitter (`RecursiveCharacterTextSplitter`);
  - the embeddings and the FAISS index;
  - the question-answering chain (`RetrievalQA`, `create_qa_chain`).
  Their internal behaviour is not modelled.
- MesoCore.StartChat: `start_chat` (meso_core.py:77) calls the chain without a `try`, so a
  failure of the chain ends the program. Chain failures are not modelled: `qa` is a total
  function.
- MesoCore.StartChat: only `result['result']` is printed (meso_core.py:78). The model
  returns the whole results and does not model the printed text or the source documents.
- MesoCore.GetOrCreateVectorStore: what `FAISS.load_local` reads from an existing folder
  is given as the location's saved index. The deserialisation itself is not modelled.
- `print` output is left out. `step_generate_folders` keeps its report string, and
  `load_documents` keeps its count.
- `step_user_name` is modelled as `AskInput(nameAnswer, None)` inside `RunSetup`.
- JSON is modelled as values. The text encoding written by `json.dump` (indentation,
  escaping) is not modelled.
- JSON numbers are integers only (`JNum(n: int)`). Floating-point numbers are not
  representable; a `done` value such as `0.0` is not modelled.
- `lower()` is modelled for ASCII letters only. Python also lower-cases non-ASCII letters.
- `int()` is modelled as an optional sign, digits and single underscores between digits,
  with surrounding whitespace. Non-ASCII digits are not modelled.
- `datetime.now()`, `os.getenv` and `load_dotenv` are parameters: the date string and the
  variable's value.
- Running out of typed lines raises `EOFError` in Python. The model treats it as the end
  of the answers: `StartChat` returns `exited == false`, and the setup steps require
  enough answers.
- DailyMotivation.LoadTasks: a pending task whose `"title"` is not a string is treated as
  an error. Python would return that value in the list.
- Concurrency and file-system errors other than a missing folder (permissions, full disk)
  are not modelled.

## Findings

| source | as written | input that shows it | evidently intended | confidence | as-written member | corrected member |
|---|---|---|---|---|---|---|
| daily_motivation.py:51 | `replace("to ", "")` deletes every "to " in the reply, including inside the title | tasks `["Email Bob", "Go to gym"]` and reply `Task: Go to gym`: the key becomes "go gym", which no title contains, so "Email Bob" is chosen with the fallback reason | remove only a leading "to " (`removeprefix`), so that an exact copy of a title is always recognised | not executed | DailyMotivation.ExactTitleNotRecognised | DailyMotivation.ExactReplyRecognisedFixed |
| meso_setup.py:110-121 | the starter files are written into `journal/`, `tasks/` and `goals/` without creating those folders | a fresh data folder and only "Health and habits" chosen: only `logs` and `habits` are created, so opening the journal file raises | create the three starter folders before writing into them | not executed | MesoSetup.HealthOnlySetupStops | MesoSetup.RunSetupFixed |
