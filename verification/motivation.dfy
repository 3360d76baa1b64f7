/** The task-selection logic of the daily motivation script: the pending-task filter of
    `load_tasks`, the reply parsing of `select_priority_task` and the fuzzy `match_task`.
    The language model's reply is an input string. */
module DailyMotivation {
  import opened Options
  import opened Seqs
  import opened Text
  import opened Json

  const OnlyTaskReason := "Only one task today, so that's your focus!"
  const DefaultReason := "Because it supports one of your main goals."
  const FallbackReason := "Fallback to first task (response was not recognized)."

  // ---------------------------------------------------------------- load_tasks

  /** A task object that `not t.get("done", False)` keeps: one without a "done" key, or
      whose last "done" value is falsy. */
  predicate IsPending(t: Value)
    ensures IsPending(t) <==>
              t.JObj? && (Get(t.members, "done").None? || !Truthy(Get(t.members, "done").value))
  {
    t.JObj? && !Truthy(GetOr(t.members, "done", JBool(false)))
  }

  /** The string `t["title"]` of a task object, if it has one. */
  function TitleOf(t: Value): (r: Option<string>)
    ensures r.Some? ==> t.JObj? && Get(t.members, "title") == Some(JStr(r.value))
    ensures r.None? ==> !t.JObj? || Get(t.members, "title").None? || !Get(t.members, "title").value.JStr?
  {
    if t.JObj? then
      match Get(t.members, "title")
      case Some(JStr(title)) => Some(title)
      case _ => None
    else None
  }

  /** Every entry is an object and every pending one has a string title: the lists
      on which the comprehension raises nothing. */
  predicate WellFormedTasks(items: seq<Value>) {
    forall i :: 0 <= i < |items| ==> items[i].JObj? && (IsPending(items[i]) ==> TitleOf(items[i]).Some?)
  }

  /** `[t["title"] for t in items if not t.get("done", False)]`; `None` where Python raises. */
  function PendingTitles(items: seq<Value>): (r: Option<seq<string>>)
    ensures r.Some? ==> |r.value| <= |items|
  {
    if items == [] then Some([])
    else if !items[0].JObj? then None
    else if !IsPending(items[0]) then PendingTitles(items[1..])
    else
      match (TitleOf(items[0]), PendingTitles(items[1..]))
      case (Some(title), Some(rest)) => Some([title] + rest)
      case _ => None
  }

  /** `load_tasks()` on the contents of `tasks/today.json` (`None`: the file is missing).
      The result is `None` where Python raises: `data.get` on a non-object, iterating a
      non-iterable, or `t.get`/`t["title"]` on a bad entry. Iterating an empty object or
      string yields nothing; any other non-list value under "tasks" raises. */
  function LoadTasks(file: Option<Value>): (r: Option<seq<string>>)
    ensures file.None? ==> r == Some([])
    ensures file.Some? && !file.value.JObj? ==> r.None?
    ensures file.Some? && file.value.JObj? && Get(file.value.members, "tasks").None? ==> r == Some([])
    ensures file.Some? && file.value.JObj? && Get(file.value.members, "tasks").Some? ==>
              var v := Get(file.value.members, "tasks").value;
              && (v.JArr? ==> r == PendingTitles(v.items))
              && (v == JObj([]) || v == JStr("") ==> r == Some([]))
              && (!v.JArr? && v != JObj([]) && v != JStr("") ==> r.None?)
  {
    match file
    case None => Some([])
    case Some(JObj(m)) =>
      (match GetOr(m, "tasks", JArr([]))
       case JArr(items) => PendingTitles(items)
       case JObj(keys) => if keys == [] then Some([]) else None
       case JStr(s) => if s == "" then Some([]) else None
       case _ => None)
    case Some(_) => None
  }

  /** On well-formed lists the filter never fails, and filtering a concatenation
      concatenates the filtered parts: order is kept. */
  lemma {:induction false} PendingTitlesAppend(a: seq<Value>, b: seq<Value>)
    requires WellFormedTasks(a) && WellFormedTasks(b)
    ensures PendingTitles(a).Some? && PendingTitles(b).Some?
    ensures PendingTitles(a + b) == Some(PendingTitles(a).value + PendingTitles(b).value)
    decreases |a|
  {
    PendingTitlesDefined(a);
    PendingTitlesDefined(b);
    if a == [] {
      assert a + b == b;
      assert PendingTitles(a).value + PendingTitles(b).value == PendingTitles(b).value;
    } else {
      WellFormedTail(a);
      PendingTitlesAppend(a[1..], b);
      HeadTail(a, b);
      PendingTitlesConsAppend(a[0], a[1..], b);
    }
  }

  /** The inductive step of `PendingTitlesAppend`: the first task's contribution comes first. */
  lemma PendingTitlesConsAppend(t: Value, rest: seq<Value>, b: seq<Value>)
    requires t.JObj? && (IsPending(t) ==> TitleOf(t).Some?)
    requires PendingTitles(rest).Some? && PendingTitles(b).Some?
    requires PendingTitles(rest + b) == Some(PendingTitles(rest).value + PendingTitles(b).value)
    ensures PendingTitles([t] + rest).Some?
    ensures PendingTitles([t] + (rest + b)) == Some(PendingTitles([t] + rest).value + PendingTitles(b).value)
  {
    PendingTitlesStep(t, rest);
    PendingTitlesStep(t, rest + b);
    ConcatAssociative(PendingHead(t), PendingTitles(rest).value, PendingTitles(b).value);
  }


  lemma ConcatAssociative(h: seq<string>, x: seq<string>, y: seq<string>)
    ensures h + (x + y) == (h + x) + y
  {
  }

  /** What the first task contributes: its title when it is pending. */
  function PendingHead(t: Value): seq<string> {
    if IsPending(t) && TitleOf(t).Some? then [TitleOf(t).value] else []
  }

  lemma PendingTitlesStep(t: Value, rest: seq<Value>)
    requires t.JObj? && (IsPending(t) ==> TitleOf(t).Some?)
    requires PendingTitles(rest).Some?
    ensures PendingTitles([t] + rest) == Some(PendingHead(t) + PendingTitles(rest).value)
  {
    var items := [t] + rest;
    assert items[0] == t && items[1..] == rest;
    if !IsPending(t) {
      assert [] + PendingTitles(rest).value == PendingTitles(rest).value;
    }
  }

  lemma WellFormedTail(items: seq<Value>)
    requires items != [] && WellFormedTasks(items)
    ensures WellFormedTasks(items[1..])
  {
    forall i | 0 <= i < |items[1..]| ensures items[1..][i] == items[i + 1] { }
  }

  lemma {:induction false} PendingTitlesDefined(items: seq<Value>)
    requires WellFormedTasks(items)
    ensures PendingTitles(items).Some?
    decreases |items|
  {
    if items != [] {
      PendingTitlesDefined(items[1..]);
    }
  }

  /** A title is returned exactly when some pending task carries it. */
  lemma {:induction false} PendingTitlesMembers(items: seq<Value>, title: string)
    requires WellFormedTasks(items)
    ensures PendingTitles(items).Some?
    ensures title in PendingTitles(items).value <==>
            exists i :: 0 <= i < |items| && IsPending(items[i]) && TitleOf(items[i]) == Some(title)
    decreases |items|
  {
    PendingTitlesDefined(items);
    if items != [] {
      var tail := items[1..];
      WellFormedTail(items);
      PendingTitlesMembers(tail, title);
      HeadTail(items, []);
      PendingTitlesStep(items[0], tail);
      CarriersOfTail(items, title);
    }
  }

  /** Some task carries the pending title exactly when the first one does or one of the rest. */
  lemma CarriersOfTail(items: seq<Value>, title: string)
    requires items != []
    ensures (exists i :: 0 <= i < |items| && IsPending(items[i]) && TitleOf(items[i]) == Some(title)) <==>
            (title in PendingHead(items[0]) ||
             exists i :: 0 <= i < |items[1..]| && IsPending(items[1..][i]) && TitleOf(items[1..][i]) == Some(title))
  {
    var tail := items[1..];
    if exists i :: 0 <= i < |items| && IsPending(items[i]) && TitleOf(items[i]) == Some(title) {
      var i :| 0 <= i < |items| && IsPending(items[i]) && TitleOf(items[i]) == Some(title);
      if i > 0 {
        assert tail[i - 1] == items[i];
      }
    }
    if exists i :: 0 <= i < |tail| && IsPending(tail[i]) && TitleOf(tail[i]) == Some(title) {
      var i :| 0 <= i < |tail| && IsPending(tail[i]) && TitleOf(tail[i]) == Some(title);
      assert items[i + 1] == tail[i];
    }
  }


  // ---------------------------------------------------------------- match_task

  /** `response_task.lower().strip().replace("to ", "").rstrip(".")` */
  function Normalize(responseTask: string): (key: string)
    ensures |key| <= |responseTask|
    ensures key == [] || key[|key| - 1] != '.'
  {
    var u := Strip(Lower(responseTask));
    var v := RemoveAll(u, "to ");
    assert |v| <= |u|;
    RStripChar(v, '.')
  }

  /** `key in t.lower().strip()`: the empty key is in every title, and a key longer
      than the title is in none. */
  predicate Matches(key: string, t: string)
    ensures key == [] ==> Matches(key, t)
    ensures Matches(key, t) ==> |key| <= |t|
  {
    ContainsEmpty(Strip(Lower(t)));
    Contains(Strip(Lower(t)), key)
  }

  /** The position `match_task` stops at: the first task whose lower-cased, stripped
      title contains `key`. */
  function MatchIndex(key: string, tasks: seq<string>): (r: Option<nat>)
    ensures r.Some? ==> r.value < |tasks| && Matches(key, tasks[r.value])
    ensures r.Some? ==> forall j :: 0 <= j < r.value ==> !Matches(key, tasks[j])
    ensures r.None? <==> forall j :: 0 <= j < |tasks| ==> !Matches(key, tasks[j])
  {
    FirstWhere(tasks, t => Matches(key, t))
  }

  /** `match_task(response_task, tasks)` */
  function MatchTask(responseTask: string, tasks: seq<string>): (r: Option<string>)
    ensures r.Some? ==> r.value in tasks && Matches(Normalize(responseTask), r.value)
    ensures r.None? <==> forall i :: 0 <= i < |tasks| ==> !Matches(Normalize(responseTask), tasks[i])
  {
    match MatchIndex(Normalize(responseTask), tasks)
    case Some(i) => Some(tasks[i])
    case None => None
  }

  /** The task returned is the one at the first matching position: no earlier task matched. */
  lemma MatchTaskFirst(responseTask: string, tasks: seq<string>, i: nat)
    requires i < |tasks| && Matches(Normalize(responseTask), tasks[i])
    requires forall j :: 0 <= j < i ==> !Matches(Normalize(responseTask), tasks[j])
    ensures MatchTask(responseTask, tasks) == Some(tasks[i])
  {
    var k := MatchIndex(Normalize(responseTask), tasks);
    assert k.Some?;
    assert k.value == i;
  }

  /** Changing the letter case of the reply or of any title does not change the position
      `match_task` stops at. */
  lemma MatchIgnoresCase(reply: string, reply': string, tasks: seq<string>, tasks': seq<string>)
    requires SameUpToCase(reply, reply')
    requires |tasks| == |tasks'| && forall j :: 0 <= j < |tasks| ==> SameUpToCase(tasks[j], tasks'[j])
    ensures MatchIndex(Normalize(reply), tasks) == MatchIndex(Normalize(reply'), tasks')
  {
    LowerSameUpToCase(reply, reply');
    var key := Normalize(reply);
    assert Normalize(reply') == key;
    forall j | 0 <= j < |tasks|
      ensures Matches(key, tasks[j]) == Matches(key, tasks'[j])
    {
      LowerSameUpToCase(tasks[j], tasks'[j]);
    }
    FirstWhereAgree(tasks, t => Matches(key, t), tasks', t => Matches(key, t));
  }

  /** An empty normalised reply is contained in every title, so the first task is returned. */
  lemma MatchTaskEmptyKey(responseTask: string, tasks: seq<string>)
    requires Normalize(responseTask) == "" && tasks != []
    ensures MatchTask(responseTask, tasks) == Some(tasks[0])
  {
    ContainsEmpty(Strip(Lower(tasks[0])));
    MatchTaskFirst(responseTask, tasks, 0);
  }

  // ---------------------------------------------------------------- reply parsing

  /** `[line.strip() for line in response.strip().splitlines()]` */
  function ReplyLines(response: string): (lines: seq<string>)
    ensures forall i :: 0 <= i < |lines| ==> Strip(lines[i]) == lines[i]
  {
    var raw := SplitLines(Strip(response));
    StrippedEachStripped(raw);
    StripEach(raw)
  }

  /** Each line stripped. */
  function StripEach(raw: seq<string>): (lines: seq<string>)
    ensures |lines| == |raw| && forall i :: 0 <= i < |raw| ==> lines[i] == Strip(raw[i])
  {
    seq(|raw|, i requires 0 <= i < |raw| => Strip(raw[i]))
  }

  lemma StrippedEachStripped(raw: seq<string>)
    ensures forall i :: 0 <= i < |raw| ==> Strip(StripEach(raw)[i]) == StripEach(raw)[i]
  {
    forall i | 0 <= i < |raw| ensures Strip(StripEach(raw)[i]) == StripEach(raw)[i] {
      StripIdempotent(raw[i]);
    }
  }

  /** `next((line for line in lines if line.lower().startswith(prefix)), "")` */
  function FieldLine(lines: seq<string>, prefix: string): (line: string)
    ensures line == "" || (line in lines && StartsWith(Lower(line), prefix))
  {
    match FirstWhere(lines, (l: string) => StartsWith(Lower(l), prefix))
    case Some(i) => lines[i]
    case None => ""
  }

  /** The first line with the prefix (in any letter case) is the field line. */
  lemma FieldLineFirst(lines: seq<string>, prefix: string, i: nat)
    requires i < |lines| && StartsWith(Lower(lines[i]), prefix)
    requires forall j :: 0 <= j < i ==> !StartsWith(Lower(lines[j]), prefix)
    ensures FieldLine(lines, prefix) == lines[i]
  {
    var k := FirstWhere(lines, (l: string) => StartsWith(Lower(l), prefix));
    assert k.Some?;
    assert k.value == i;
  }

  /** A parsed field: `field_line.replace(tag, "").strip()` where the field line is the
      first reply line starting, in any letter case, with `prefix`. */
  function Field(response: string, prefix: string, tag: string): (value: string)
    requires tag != []
    ensures Strip(value) == value
    ensures FieldLine(ReplyLines(response), prefix) == "" ==> value == ""
  {
    var line := FieldLine(ReplyLines(response), prefix);
    StripIdempotent(RemoveAll(line, tag));
    NothingToRemove(line, tag);
    Strip(RemoveAll(line, tag))
  }

  lemma NothingToRemove(line: string, tag: string)
    requires tag != []
    ensures line == "" ==> Strip(RemoveAll(line, tag)) == ""
  {
    if line == "" {
      assert |RemoveAll(line, tag)| == 0;
      StripNoSurroundingSpace("");
    }
  }

  /** The parsed task: `task_line.replace("Task:", "").strip()` */
  function TaskField(response: string): (task: string)
    ensures Strip(task) == task
  {
    Field(response, "task:", "Task:")
  }

  /** The parsed reason: `reason_line.replace("Reason:", "").strip()` */
  function ReasonField(response: string): (reason: string)
    ensures Strip(reason) == reason
  {
    Field(response, "reason:", "Reason:")
  }

  /** Without a `Task:` line the parsed task is empty, so the first task is matched. */
  lemma NoTaskLineMatchesFirst(response: string, tasks: seq<string>)
    requires forall i :: 0 <= i < |ReplyLines(response)| ==> !StartsWith(Lower(ReplyLines(response)[i]), "task:")
    requires tasks != []
    ensures TaskField(response) == ""
    ensures MatchTask(TaskField(response), tasks) == Some(tasks[0])
  {
    NoTaskLine(response);
    EmptyTaskMatchesFirst(TaskField(response), tasks);
  }

  lemma NoTaskLine(response: string)
    requires forall i :: 0 <= i < |ReplyLines(response)| ==> !StartsWith(Lower(ReplyLines(response)[i]), "task:")
    ensures TaskField(response) == ""
  {
    NoFieldLines(ReplyLines(response), "task:");
  }

  lemma EmptyTaskMatchesFirst(task: string, tasks: seq<string>)
    requires task == "" && tasks != []
    ensures MatchTask(task, tasks) == Some(tasks[0])
  {
    NormalizeEmpty(task);
    MatchTaskEmptyKey(task, tasks);
  }

  /** Lines none of which starts with the prefix have no field line. */
  lemma NoFieldLines(lines: seq<string>, prefix: string)
    requires forall i :: 0 <= i < |lines| ==> !StartsWith(Lower(lines[i]), prefix)
    ensures FieldLine(lines, prefix) == ""
  {
    var k := FirstWhere(lines, (l: string) => StartsWith(Lower(l), prefix));
    assert k.None?;
  }

  lemma NormalizeEmpty(s: string)
    requires s == ""
    ensures Normalize(s) == ""
  {
    assert |Normalize(s)| <= |s|;
  }

  // ---------------------------------------------------------------- select_priority_task

  datatype Choice = Choice(task: string, reason: string)

  /** How `select_priority_task` decides between two or more tasks once the reply's task
      has been matched to `m`: a non-empty match is chosen with the model's reason (or the
      default reason when it gave none); otherwise the first task, with the fallback reason. */
  predicate DecidedBy(tasks: seq<string>, m: Option<string>, reason: string, c: Choice)
    requires tasks != []
  {
    if m.Some? && m.value != "" then
      c == Choice(m.value, if reason == "" then DefaultReason else reason)
    else c == Choice(tasks[0], FallbackReason)
  }

  /** The decision of `select_priority_task` once the reply has been parsed into
      `task` and `reason`. */
  function Choose(tasks: seq<string>, task: string, reason: string): (c: Choice)
    requires |tasks| >= 1
    ensures c.task in tasks
    ensures c.reason != ""
    ensures |tasks| == 1 ==> c == Choice(tasks[0], OnlyTaskReason)
    ensures |tasks| >= 2 ==> DecidedBy(tasks, MatchTask(task, tasks), reason, c)
  {
    if |tasks| == 1 then Choice(tasks[0], OnlyTaskReason)
    else
      var matched := MatchTask(task, tasks);
      if matched.Some? && matched.value != "" then
        Choice(matched.value, if reason != "" then reason else DefaultReason)
      else
        Choice(tasks[0], FallbackReason)
  }

  /** `select_priority_task(tasks)` with the model's reply given as `response`.
      An empty task list makes Python raise `IndexError`; the script only calls it
      with at least one task. */
  function SelectPriorityTask(tasks: seq<string>, response: string): (c: Choice)
    requires |tasks| >= 1
    ensures c.task in tasks
    ensures |tasks| == 1 ==> c == Choice(tasks[0], OnlyTaskReason)
  {
    Choose(tasks, TaskField(response), ReasonField(response))
  }

  /** With two or more tasks the parsed reply decides the choice as `DecidedBy` says. */
  lemma SelectPriorityTaskDecides(tasks: seq<string>, response: string)
    requires |tasks| >= 2
    ensures DecidedBy(tasks, MatchTask(TaskField(response), tasks), ReasonField(response),
                      SelectPriorityTask(tasks, response))
  {
  }

  /** A task list stored under "tasks" is filtered as a list. */
  lemma LoadTasksList(items: seq<Value>)
    ensures LoadTasks(Some(JObj([("tasks", JArr(items))]))) == PendingTitles(items)
  {
    assert Get([("tasks", JArr(items))], "tasks") == Some(JArr(items));
  }

  /** The list stored under "tasks" in the file, empty when there is none. */
  function TaskItems(file: Option<Value>): seq<Value> {
    if file.Some? && file.value.JObj? && Get(file.value.members, "tasks").Some?
       && Get(file.value.members, "tasks").value.JArr?
    then Get(file.value.members, "tasks").value.items
    else []
  }

  /** Whenever `load_tasks` returns some titles, they are the pending titles of the
      list stored under "tasks", and that list is well formed. */
  lemma LoadedTasksCameFromList(file: Option<Value>)
    requires LoadTasks(file).Some? && LoadTasks(file).value != []
    ensures LoadTasks(file) == PendingTitles(TaskItems(file))
    ensures WellFormedTasks(TaskItems(file))
  {
    PendingTitlesWellFormed(TaskItems(file));
  }

  /** The filter succeeds only on well-formed lists. */
  lemma {:induction false} PendingTitlesWellFormed(items: seq<Value>)
    requires PendingTitles(items).Some?
    ensures WellFormedTasks(items)
    decreases |items|
  {
    if items != [] {
      PendingTitlesWellFormed(items[1..]);
      forall i | 1 <= i < |items| ensures items[i] == items[1..][i - 1] { }
    }
  }

  /** Composed with `load_tasks`: whatever the file holds, when it yields at least one
      task the chosen task is the title of a pending task stored in it. */
  lemma ChosenTaskIsPending(file: Option<Value>, response: string)
    requires LoadTasks(file).Some? && LoadTasks(file).value != []
    ensures var items := TaskItems(file);
            exists i :: 0 <= i < |items| && IsPending(items[i]) &&
                        TitleOf(items[i]) == Some(SelectPriorityTask(LoadTasks(file).value, response).task)
  {
    LoadedTasksCameFromList(file);
    PendingTitlesMembers(TaskItems(file), SelectPriorityTask(LoadTasks(file).value, response).task);
  }

  // ---------------------------------------------------------------- the "to " deletion

  /** As written, `replace("to ", "")` also deletes the "to " inside a title. */
  lemma NormalizeDeletesInnerTo()
    ensures Normalize("Go to gym") == "go gym"
  {
    LowerGoToGym();
    StripNoSurroundingSpace("go to gym");
    RemoveInnerTo("go to gym", "to ");
    NormalizeSteps("Go to gym", "go to gym", "go gym");
  }

  /** The key is the deletion result when that does not end in a dot. */
  lemma NormalizeSteps(reply: string, u: string, v: string)
    requires Strip(Lower(reply)) == u && RemoveAll(u, "to ") == v
    requires v != [] && v[|v| - 1] != '.'
    ensures Normalize(reply) == v
  {
  }

  lemma LowerGoToGym()
    ensures Lower("Go to gym") == "go to gym"
  {
    var s := "Go to gym";
    assert LowerChar(s[0]) == 'g';
    forall i | 1 <= i < |s| ensures LowerChar(s[i]) == s[i] { }
  }

  /** One pass of `replace("to ", "")` over "go to gym": "go " is kept, "to " is
      deleted and "gym" is kept. */
  lemma RemoveInnerTo(s: string, p: string)
    requires s == "go to gym" && p == "to "
    ensures RemoveAll(s, p) == "go gym"
  {
    var x, z := "go ", "gym";
    assert s == x + (p + z);
    assert x[0] != p[0] && x[1] != p[0] && x[2] != p[0] && z[0] != p[0];
    RemoveAllMiddle(x, p, z);
    assert x + z == "go gym";
  }




  /** So the exact title "Go to gym" does not match itself, nor any other title. (The
      strings are parameters so that the solver does not evaluate the search on literals.) */
  lemma ExactTitleNotMatched(title: string, tasks: seq<string>)
    requires title == "Go to gym" && tasks == ["Email Bob", title]
    ensures MatchTask(title, tasks) == None
  {
    NormalizeDeletesInnerTo();
    EmailBobMissesKey(tasks[0]);
    GoToGymMissesKey(tasks[1]);
    NeitherMatches(title, tasks);
  }

  lemma NeitherMatches(reply: string, tasks: seq<string>)
    requires |tasks| == 2
    requires !Matches(Normalize(reply), tasks[0]) && !Matches(Normalize(reply), tasks[1])
    ensures MatchTask(reply, tasks) == None
  {
    NoKeyInEither(Normalize(reply), tasks);
  }

  lemma NoKeyInEither(key: string, tasks: seq<string>)
    requires |tasks| == 2 && !Matches(key, tasks[0]) && !Matches(key, tasks[1])
    ensures MatchIndex(key, tasks).None?
  {
    NoneOfTwo(tasks, t => Matches(key, t));
  }

  lemma EmailBobMissesKey(t: string)
    requires t == "Email Bob"
    ensures !Matches("go gym", t)
  {
    LowerEmailBob();
    StripNoSurroundingSpace("email bob");
    EmailBobLacksKey();
    MissesWhenAbsent("go gym", t, "email bob");
  }

  /** A title misses a key that its lower-cased, stripped form does not contain. */
  lemma MissesWhenAbsent(key: string, t: string, u: string)
    requires Lower(t) == u && Strip(u) == u && !Contains(u, key)
    ensures !Matches(key, t)
  {
  }

  lemma GoToGymMissesKey(t: string)
    requires t == "Go to gym"
    ensures !Matches("go gym", t)
  {
    LowerGoToGym();
    StripNoSurroundingSpace("go to gym");
    GoToGymLacksKey();
    MissesWhenAbsent("go gym", t, "go to gym");
  }

  lemma LowerEmailBob()
    ensures Lower("Email Bob") == "email bob"
  {
    var s := "Email Bob";
    assert LowerChar(s[0]) == 'e';
    assert LowerChar(s[6]) == 'b';
    forall i | 0 <= i < |s| && i != 0 && i != 6 ensures LowerChar(s[i]) == s[i] { }
  }

  lemma GoToGymLacksKey()
    ensures !Contains("go to gym", "go gym")
  {
    var h, n := "go to gym", "go gym";
    forall i | 0 <= i <= |h| ensures !(n <= h[i..]) {
      if i == 0 {
        assert h[i..][3] != n[3];
      } else if i <= 3 {
        assert h[i..][0] != n[0];
      }
    }
  }

  lemma EmailBobLacksKey()
    ensures !Contains("email bob", "go gym")
  {
    var h, n := "email bob", "go gym";
    forall i | 0 <= i <= |h| ensures !(n <= h[i..]) {
      if i <= 3 {
        assert h[i..][0] != n[0];
      }
    }
  }

  /** The task line of the reply "Task: Go to gym". */
  lemma TaskFieldExample(reply: string)
    requires reply == "Task: Go to gym"
    ensures TaskField(reply) == "Go to gym"
  {
    OneLineReply(reply);
    TaskLabelIgnoringCase(reply);
    TaskFieldOneLine(reply);
    RemoveTaskLabel(reply);
    StripLeadingBlank();
  }

  /** In a one-line reply whose line starts with the label, the task is that line with
      the label removed and stripped. */
  lemma TaskFieldOneLine(reply: string)
    requires ReplyLines(reply) == [reply] && StartsWith(Lower(reply), "task:")
    ensures TaskField(reply) == Strip(RemoveAll(reply, "Task:"))
  {
    FieldLineFirst([reply], "task:", 0);
  }

  lemma TaskLabelIgnoringCase(reply: string)
    requires reply == "Task: Go to gym"
    ensures StartsWith(Lower(reply), "task:")
  {
    var l := Lower(reply);
    assert l[0] == 't' && l[1] == 'a' && l[2] == 's' && l[3] == 'k' && l[4] == ':';
  }

  /** A reply of one line without surrounding whitespace is that one line. */
  lemma ReplyLinesOneLine(reply: string)
    requires reply != [] && NoLineBreak(reply)
    requires !IsSpace(reply[0]) && !IsSpace(reply[|reply| - 1])
    ensures ReplyLines(reply) == [reply]
  {
    StripNoSurroundingSpace(reply);
    SplitLinesLast(reply);
    assert SplitLines(Strip(reply)) == [reply];
    assert ReplyLines(reply)[0] == Strip(reply);
  }

  lemma OneLineReply(reply: string)
    requires reply == "Task: Go to gym"
    ensures ReplyLines(reply) == [reply]
  {
    assert !IsSpace(reply[0]) && !IsSpace(reply[|reply| - 1]);
    assert NoLineBreak(reply);
    ReplyLinesOneLine(reply);
  }

  lemma RemoveTaskLabel(line: string)
    requires line == "Task: Go to gym"
    ensures RemoveAll(line, "Task:") == " Go to gym"
  {
    var rest := " Go to gym";
    assert line[..5] == "Task:" && line[5..] == rest;
    assert !Contains(rest, "Task:") by {
      forall i | 0 <= i <= |rest| ensures !("Task:" <= rest[i..]) {
        if i + 5 <= |rest| {
          assert rest[i..][0] != 'T';
        }
      }
    }
    RemoveAllAbsent(rest, "Task:");
  }

  lemma StripLeadingBlank()
    ensures Strip(" Go to gym") == "Go to gym"
  {
    var s, t := " Go to gym", "Go to gym";
    assert IsSpace(s[0]) && s[1..] == t;
    assert !IsSpace(t[0]) && !IsSpace(t[|t| - 1]);
    assert LStrip(t) == t;
    assert LStrip(s) == t;
    assert RStrip(t) == t;
  }

  /** A reply that copies the second title exactly is reported as not recognised and the
      first task is chosen with the fallback reason. */
  lemma ExactTitleNotRecognised(tasks: seq<string>, reply: string)
    requires tasks == ["Email Bob", "Go to gym"] && reply == "Task: Go to gym"
    ensures SelectPriorityTask(tasks, reply) == Choice("Email Bob", FallbackReason)
  {
    TaskFieldExample(reply);
    ExactTitleFallback(tasks, TaskField(reply), ReasonField(reply));
  }

  lemma ExactTitleFallback(tasks: seq<string>, task: string, reason: string)
    requires task == "Go to gym" && tasks == ["Email Bob", task]
    ensures Choose(tasks, task, reason) == Choice("Email Bob", FallbackReason)
  {
    ExactTitleNotMatched(task, tasks);
  }

  /** Intended normalisation: drop a leading "to " only (`removeprefix`). */
  function NormalizeFixed(responseTask: string): (key: string)
    ensures Contains(Strip(Lower(responseTask)), key)
  {
    var u := Strip(Lower(responseTask));
    TrimmedIsSlice(u, "to ", '.');
    RStripChar(DropPrefix(u, "to "), '.')
  }

  /** Dropping a prefix and trailing characters leaves a substring. */
  lemma TrimmedIsSlice(u: string, p: string, c: char)
    ensures Contains(u, RStripChar(DropPrefix(u, p), c))
  {
    var d := DropPrefix(u, p);
    var k := RStripChar(d, c);
    assert k == u[|u| - |d|..|u| - |d| + |k|];
    ContainsSlice(u, |u| - |d|, |u| - |d| + |k|);
  }

  /** `match_task` with the intended normalisation. */
  function MatchTaskFixed(responseTask: string, tasks: seq<string>): (r: Option<string>)
    ensures r.Some? ==> r.value in tasks && Matches(NormalizeFixed(responseTask), r.value)
    ensures r.None? <==> forall i :: 0 <= i < |tasks| ==> !Matches(NormalizeFixed(responseTask), tasks[i])
  {
    match MatchIndex(NormalizeFixed(responseTask), tasks)
    case Some(i) => Some(tasks[i])
    case None => None
  }

  /** With the intended normalisation an exact copy of a listed title is always recognised. */
  lemma ExactTitleRecognisedFixed(title: string, tasks: seq<string>)
    requires title in tasks
    ensures MatchTaskFixed(title, tasks).Some?
  {
    var i :| 0 <= i < |tasks| && tasks[i] == title;
    assert Matches(NormalizeFixed(title), tasks[i]);
  }

  /** With the intended normalisation the reply "Task: Go to gym" selects "Go to gym";
      there is no `Reason:` line, so the default reason is given. */
  lemma ExactTitleChosenFixed(tasks: seq<string>, reply: string)
    requires tasks == ["Email Bob", "Go to gym"] && reply == "Task: Go to gym"
    ensures SelectPriorityTaskFixed(tasks, reply) == Choice("Go to gym", DefaultReason)
  {
    TaskFieldExample(reply);
    ReasonFieldAbsent(reply);
    ExactTitleChoiceFixed(tasks, TaskField(reply), ReasonField(reply));
  }

  lemma ExactTitleChoiceFixed(tasks: seq<string>, task: string, reason: string)
    requires task == "Go to gym" && tasks == ["Email Bob", task] && reason == ""
    ensures ChooseFixed(tasks, task, reason) == Choice(task, DefaultReason)
  {
    ExactTitleMatchedFixed(task, tasks);
    var c := ChooseFixed(tasks, task, reason);
    assert DecidedBy(tasks, Some(task), reason, c);
  }

  lemma ExactTitleMatchedFixed(title: string, tasks: seq<string>)
    requires title == "Go to gym" && tasks == ["Email Bob", title]
    ensures MatchTaskFixed(title, tasks) == Some(title)
  {
    NormalizeFixedGoToGym(title);
    EmailBobMissesFixedKey(tasks[0], NormalizeFixed(title));
    ExactTitleRecognisedFixed(title, tasks);
    MatchTaskFixedAt(title, tasks, 1);
  }

  /** The title "Email Bob" does not contain the intended key of "Go to gym". */
  lemma EmailBobMissesFixedKey(t: string, key: string)
    requires t == "Email Bob" && key == "go to gym"
    ensures !Matches(key, t)
  {
    LowerEmailBob();
    StripNoSurroundingSpace("email bob");
    EmailBobLacksTitle();
    MissesWhenAbsent(key, t, "email bob");
  }

  /** The intended `match_task` returns the first title holding the key. */
  lemma MatchTaskFixedAt(responseTask: string, tasks: seq<string>, i: nat)
    requires i < |tasks| && Matches(NormalizeFixed(responseTask), tasks[i])
    requires forall j :: 0 <= j < i ==> !Matches(NormalizeFixed(responseTask), tasks[j])
    ensures MatchTaskFixed(responseTask, tasks) == Some(tasks[i])
  {
    var k := MatchIndex(NormalizeFixed(responseTask), tasks);
    assert k.Some?;
    assert k.value == i;
  }


  lemma NormalizeFixedGoToGym(title: string)
    requires title == "Go to gym"
    ensures NormalizeFixed(title) == "go to gym"
  {
    var u := "go to gym";
    LowerGoToGym();
    StripNoSurroundingSpace(u);
    assert u[0] == 'g' && u[|u| - 1] == 'm';
    NormalizeFixedUnchanged(title, u);
  }

  /** A reply that, lower-cased and stripped, neither starts with "to " nor ends in a dot
      is its own key. */
  lemma NormalizeFixedUnchanged(title: string, u: string)
    requires Strip(Lower(title)) == u
    requires !("to " <= u) && (u == [] || u[|u| - 1] != '.')
    ensures NormalizeFixed(title) == u
  {
    assert DropPrefix(u, "to ") == u;
  }


  lemma EmailBobLacksTitle()
    ensures !Contains("email bob", "go to gym")
  {
    var h, n := "email bob", "go to gym";
    forall i | 0 <= i <= |h| ensures !(n <= h[i..]) {
      if i == 0 {
        assert h[i..][0] != n[0];
      }
    }
  }

  /** The reply "Task: Go to gym" has no `Reason:` line. */
  lemma ReasonFieldAbsent(reply: string)
    requires reply == "Task: Go to gym"
    ensures ReasonField(reply) == ""
  {
    OneLineReply(reply);
    assert Lower(reply)[0] == 't';
    NoReasonOneLine(reply);
  }

  /** A one-line reply that does not start with the label has no reason. */
  lemma NoReasonOneLine(reply: string)
    requires ReplyLines(reply) == [reply] && !StartsWith(Lower(reply), "reason:")
    ensures ReasonField(reply) == ""
  {
    NoFieldLine(reply, "reason:");
  }

  /** A single line that does not start with the prefix is no field line. */
  lemma NoFieldLine(line: string, prefix: string)
    requires !StartsWith(Lower(line), prefix)
    ensures FieldLine([line], prefix) == ""
  {
    var k := FirstWhere([line], (l: string) => StartsWith(Lower(l), prefix));
    assert k.None?;
  }

  /** `select_priority_task` with the intended normalisation. */
  function SelectPriorityTaskFixed(tasks: seq<string>, response: string): (c: Choice)
    requires |tasks| >= 1
    ensures c.task in tasks
    ensures |tasks| == 1 ==> c == Choice(tasks[0], OnlyTaskReason)
  {
    ChooseFixed(tasks, TaskField(response), ReasonField(response))
  }

  /** The same decision with the intended matching. */
  lemma SelectPriorityTaskFixedDecides(tasks: seq<string>, response: string)
    requires |tasks| >= 2
    ensures DecidedBy(tasks, MatchTaskFixed(TaskField(response), tasks), ReasonField(response),
                      SelectPriorityTaskFixed(tasks, response))
  {
  }

  /** With the intended normalisation a reply naming a listed title exactly is
      recognised: the reason is the model's (or the default), never the fallback. */
  lemma ExactReplyRecognisedFixed(tasks: seq<string>, response: string)
    requires |tasks| >= 2 && TaskField(response) in tasks && "" !in tasks
    ensures SelectPriorityTaskFixed(tasks, response).reason ==
            (if ReasonField(response) == "" then DefaultReason else ReasonField(response))
  {
    var task, reason := TaskField(response), ReasonField(response);
    ExactTitleRecognisedFixed(task, tasks);
    SelectPriorityTaskFixedDecides(tasks, response);
    MatchedReason(tasks, MatchTaskFixed(task, tasks), reason, SelectPriorityTaskFixed(tasks, response));
  }

  /** A non-empty match keeps the model's reason, or the default one. */
  lemma MatchedReason(tasks: seq<string>, m: Option<string>, reason: string, c: Choice)
    requires tasks != [] && DecidedBy(tasks, m, reason, c)
    requires m.Some? && m.value in tasks && "" !in tasks
    ensures c.reason == (if reason == "" then DefaultReason else reason)
  {
  }

  /** The same holds with the intended normalisation. */
  lemma ChosenTaskIsPendingFixed(file: Option<Value>, response: string)
    requires LoadTasks(file).Some? && LoadTasks(file).value != []
    ensures var items := TaskItems(file);
            exists i :: 0 <= i < |items| && IsPending(items[i]) &&
                        TitleOf(items[i]) == Some(SelectPriorityTaskFixed(LoadTasks(file).value, response).task)
  {
    LoadedTasksCameFromList(file);
    PendingTitlesMembers(TaskItems(file), SelectPriorityTaskFixed(LoadTasks(file).value, response).task);
  }

  function ChooseFixed(tasks: seq<string>, task: string, reason: string): (c: Choice)
    requires |tasks| >= 1
    ensures c.task in tasks
    ensures |tasks| == 1 ==> c == Choice(tasks[0], OnlyTaskReason)
    ensures |tasks| >= 2 ==> DecidedBy(tasks, MatchTaskFixed(task, tasks), reason, c)
    ensures |tasks| >= 2 && task in tasks && "" !in tasks ==>
              c.reason == (if reason == "" then DefaultReason else reason)
  {
    if |tasks| == 1 then Choice(tasks[0], OnlyTaskReason)
    else
      var matched := MatchTaskFixed(task, tasks);
      assert task in tasks ==> matched.Some? by {
        if task in tasks {
          ExactTitleRecognisedFixed(task, tasks);
        }
      }
      if matched.Some? && matched.value != "" then
        Choice(matched.value, if reason != "" then reason else DefaultReason)
      else
        Choice(tasks[0], FallbackReason)
  }
}
