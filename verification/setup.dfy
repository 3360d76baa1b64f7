/** The setup wizard: defaulted answers, the choice of focus areas, the goal list, the
    folders derived from the focus areas, the starter files and the saved configuration.
    The user's answers to the successive prompts are an input sequence; the data
    directory is a `Storage.Disk`. */
module MesoSetup {
  import opened Options
  import opened Text
  import opened Json
  import Storage
  import DailyMotivation
  import Seqs

  // ---------------------------------------------------------------- ask_input

  /** `ask_input(prompt, default)` given the line the user typed: the stripped answer,
      or `default` when nothing but whitespace was typed. */
  function AskInput(answer: string, default: Option<string>): (r: Option<string>)
    ensures Strip(answer) == "" ==> r == default
    ensures r != default ==> r == Some(Strip(answer)) && r.value != ""
    ensures default.Some? ==> r.Some?
  {
    var value := Strip(answer);
    if value != "" then
      Some(value)
    else default
  }

  // ---------------------------------------------------------------- step_focus_areas

  const FocusOptions: seq<string> := [
    "Staying productive",
    "Emotional reflection",
    "Health and habits",
    "Managing goals",
    "Daily journaling",
    "Learning new things"
  ]

  /** The answer to one `(y/n)` question counts as yes: the answer, defaulted to "n",
      lower-cases to "y". */
  predicate Accepts(answer: string) {
    Lower(AskInput(answer, Some("n")).value) == "y"
  }

  /** Only "y" and "Y" (with any surrounding whitespace) select an option; an empty
      answer does not. */
  lemma AcceptsIff(answer: string)
    ensures Accepts(answer) <==> Strip(answer) == "y" || Strip(answer) == "Y"
  {
    var r := AskInput(answer, Some("n")).value;
    LowerIsY(r);
    if Strip(answer) == "" {
      assert r == "n";
    } else {
      assert r == Strip(answer);
    }
  }

  lemma LowerIsY(r: string)
    ensures Lower(r) == "y" <==> r == "y" || r == "Y"
  {
    if Lower(r) == "y" {
      assert |r| == 1;
      assert Lower(r)[0] == LowerChar(r[0]) == 'y';
      assert r == [r[0]];
    }
    if r == "y" || r == "Y" {
      assert Lower(r) == [LowerChar(r[0])];
    }
  }

  /** The yes/no decision taken on each answer. */
  function Decisions(answers: seq<string>): (yes: seq<bool>)
    ensures |yes| == |answers|
    ensures forall i :: 0 <= i < |answers| ==> yes[i] == Accepts(answers[i])
  {
    seq(|answers|, i requires 0 <= i < |answers| => Accepts(answers[i]))
  }

  /** The options whose decision is yes, in the order of `options`. */
  function Pick(options: seq<string>, yes: seq<bool>): (r: seq<string>)
    requires |yes| == |options|
    ensures |r| <= |options|
    decreases |options|
  {
    if options == [] then []
    else
      var n := |options| - 1;
      Pick(options[..n], yes[..n]) + (if yes[n] then [options[n]] else [])
  }

  /** `step_focus_areas()`: one question per option, in order. */
  method StepFocusAreas(answers: seq<string>) returns (selected: seq<string>)
    requires |answers| == |FocusOptions|
    ensures selected == Pick(FocusOptions, Decisions(answers))
  {
    selected := AskEachOption(FocusOptions, answers);
  }

  /** The loop of `step_focus_areas` over its option list: asks about each option with
      default "n" and appends the option when the answer lower-cases to "y". */
  method AskEachOption(options: seq<string>, answers: seq<string>) returns (selected: seq<string>)
    requires |answers| == |options|
    ensures selected == Pick(options, Decisions(answers))
  {
    var yes := Decisions(answers);
    selected := [];
    for i := 0 to |options|
      invariant selected == Pick(options[..i], yes[..i])
    {
      var response := AskInput(answers[i], Some("n"));
      assert yes[i] == (Lower(response.value) == "y");
      PickPrefix(options, yes, i);
      if Lower(response.value) == "y" {
        selected := selected + [options[i]];
      }
    }
    assert options[..|options|] == options;
    assert yes[..|yes|] == yes;
  }

  lemma PickPrefix(options: seq<string>, yes: seq<bool>, i: nat)
    requires |yes| == |options| && i < |options|
    ensures Pick(options[..i + 1], yes[..i + 1]) == Pick(options[..i], yes[..i]) + (if yes[i] then [options[i]] else [])
  {
    assert options[..i + 1][..i] == options[..i];
    assert yes[..i + 1][..i] == yes[..i];
  }

  /** An option is picked exactly when its own decision is yes. */
  lemma {:induction false} PickMembers(options: seq<string>, yes: seq<bool>, x: string)
    requires |yes| == |options|
    ensures x in Pick(options, yes) <==> exists i :: 0 <= i < |options| && options[i] == x && yes[i]
    decreases |options|
  {
    if options != [] {
      var n := |options| - 1;
      PickMembers(options[..n], yes[..n], x);
      if exists i :: 0 <= i < |options| && options[i] == x && yes[i] {
        var i :| 0 <= i < |options| && options[i] == x && yes[i];
        if i < n {
          assert options[..n][i] == x && yes[..n][i];
        }
      }
      if exists i :: 0 <= i < n && options[..n][i] == x && yes[..n][i] {
        var i :| 0 <= i < n && options[..n][i] == x && yes[..n][i];
        assert options[i] == x && yes[i];
      }
    }
  }

  /** A focus area is selected exactly when the answer to its own question accepts it. */
  lemma FocusAreaSelectedIff(answers: seq<string>, i: nat)
    requires |answers| == |FocusOptions| && i < |FocusOptions|
    ensures FocusOptions[i] in Pick(FocusOptions, Decisions(answers)) <==> Accepts(answers[i])
  {
    FocusOptionsDistinct();
    PickMembers(FocusOptions, Decisions(answers), FocusOptions[i]);
  }

  /** `xs` is `ys` with some elements left out, order kept. */
  predicate IsSubsequence(xs: seq<string>, ys: seq<string>)
    decreases |ys|
  {
    if ys == [] then xs == []
    else
      || IsSubsequence(xs, ys[..|ys| - 1])
      || (xs != [] && xs[|xs| - 1] == ys[|ys| - 1] && IsSubsequence(xs[..|xs| - 1], ys[..|ys| - 1]))
  }

  /** The picked options keep the order of the option list. */
  lemma {:induction false} PickSubsequence(options: seq<string>, yes: seq<bool>)
    requires |yes| == |options|
    ensures IsSubsequence(Pick(options, yes), options)
    decreases |options|
  {
    if options != [] {
      var n := |options| - 1;
      var prev := Pick(options[..n], yes[..n]);
      PickSubsequence(options[..n], yes[..n]);
      if yes[n] {
        assert (prev + [options[n]])[..|prev|] == prev;
      } else {
        assert prev + [] == prev;
      }
    }
  }

  predicate Distinct(xs: seq<string>) {
    forall i, j :: 0 <= i < j < |xs| ==> xs[i] != xs[j]
  }

  /** No option is picked twice. */
  lemma {:induction false} PickDistinct(options: seq<string>, yes: seq<bool>)
    requires |yes| == |options| && Distinct(options)
    ensures Distinct(Pick(options, yes))
    decreases |options|
  {
    if options != [] {
      var n := |options| - 1;
      var prev := Pick(options[..n], yes[..n]);
      PickDistinct(options[..n], yes[..n]);
      if yes[n] {
        PickMembers(options[..n], yes[..n], options[n]);
        assert options[n] !in prev;
        var r := prev + [options[n]];
        forall i, j | 0 <= i < j < |r| ensures r[i] != r[j] {
          if j < |prev| {
            assert r[i] == prev[i] && r[j] == prev[j];
          } else {
            assert r[i] in prev;
          }
        }
      } else {
        assert prev + [] == prev;
      }
    }
  }

  lemma FocusOptionsDistinct()
    ensures Distinct(FocusOptions)
  {
    forall i, j | 0 <= i < j < |FocusOptions| ensures FocusOptions[i] != FocusOptions[j] {
      assert FocusOptions[i][0] != FocusOptions[j][0];
    }
  }

  /** What `step_focus_areas` returns is a duplicate-free, order-keeping selection of
      the six options. */
  lemma FocusAreasShape(answers: seq<string>)
    requires |answers| == |FocusOptions|
    ensures IsSubsequence(Pick(FocusOptions, Decisions(answers)), FocusOptions)
    ensures Distinct(Pick(FocusOptions, Decisions(answers)))
  {
    PickSubsequence(FocusOptions, Decisions(answers));
    FocusOptionsDistinct();
    PickDistinct(FocusOptions, Decisions(answers));
  }

  /** A non-default answer is stripped: it neither starts nor ends with whitespace. */
  lemma AskInputStripped(answer: string, default: Option<string>)
    ensures AskInput(answer, default) != default ==>
              Strip(AskInput(answer, default).value) == AskInput(answer, default).value
  {
    StripIdempotent(answer);
  }

  // ---------------------------------------------------------------- step_personal_goals

  const DefaultGoalCount := 3

  /** `int(os.getenv("DEFAULT_GOAL_COUNT", 3))`, with any failure falling back to 3;
      `env` is the variable's value, if set. */
  function GoalCount(env: Option<string>): (count: int)
    ensures count == DefaultGoalCount || (env.Some? && ParseInt(env.value) == Some(count))
    ensures env.Some? && ParseInt(env.value).Some? ==> count == ParseInt(env.value).value
    ensures env.None? || ParseInt(env.value).None? ==> count == DefaultGoalCount
  {
    if env.Some? && ParseInt(env.value).Some? then ParseInt(env.value).value else DefaultGoalCount
  }

  /** A variable holding a decimal number sets the count to that number. */
  lemma GoalCountDecimal(n: nat)
    ensures GoalCount(Some(DecimalString(n))) == n
  {
    ParseIntDecimal(n);
  }

  /** The number of questions `range(1, count + 1)` asks. */
  function Rounds(count: int): (k: nat)
    ensures count >= 0 ==> k == count
    ensures count <= 0 ==> k == 0
  {
    if count > 0 then count else 0
  }

  /** What `ask_input(f"Goal {i}")` returns for each answer. */
  function Replies(answers: seq<string>): (replies: seq<Option<string>>)
    ensures |replies| == |answers|
    ensures forall i :: 0 <= i < |answers| ==> replies[i] == AskInput(answers[i], None)
  {
    seq(|answers|, i requires 0 <= i < |answers| => AskInput(answers[i], None))
  }

  /** The goals kept from the replies: the truthy ones, in order. */
  function Kept(replies: seq<Option<string>>): (goals: seq<string>)
    ensures |goals| <= |replies|
    decreases |replies|
  {
    if replies == [] then []
    else
      var n := |replies| - 1;
      var goal := replies[n];
      Kept(replies[..n]) + (if goal.Some? && goal.value != "" then [goal.value] else [])
  }

  /** `step_personal_goals()`: reads the goal count, then asks for the goals. `answers`
      must hold at least as many lines as questions are asked. */
  method StepPersonalGoals(env: Option<string>, answers: seq<string>) returns (goals: seq<string>)
    requires |answers| >= Rounds(GoalCount(env))
    ensures goals == Kept(Replies(answers[..Rounds(GoalCount(env))]))
  {
    var count := GoalCount(env);
    goals := AskGoals(count, answers);
  }

  /** The loop of `step_personal_goals`: `count` questions, keeping each truthy reply. */
  method AskGoals(count: int, answers: seq<string>) returns (goals: seq<string>)
    requires |answers| >= Rounds(count)
    ensures goals == Kept(Replies(answers[..Rounds(count)]))
  {
    var replies := Replies(answers[..Rounds(count)]);
    goals := [];
    var i := 1;
    while i < count + 1
      invariant 1 <= i <= Rounds(count) + 1
      invariant goals == Kept(replies[..i - 1])
    {
      var goal := AskInput(answers[i - 1], None);
      assert replies[i - 1] == goal;
      KeptPrefix(replies, i - 1);
      if goal.Some? && goal.value != "" {
        goals := goals + [goal.value];
      }
      i := i + 1;
    }
    assert replies[..Rounds(count)] == replies;
  }

  lemma KeptPrefix(replies: seq<Option<string>>, k: nat)
    requires k < |replies|
    ensures Kept(replies[..k + 1]) ==
            Kept(replies[..k]) + (if replies[k].Some? && replies[k].value != "" then [replies[k].value] else [])
  {
    assert replies[..k + 1][..k] == replies[..k];
  }

  /** A reply is kept exactly when it is a non-empty string, so at most `count` goals are
      kept and none of them is blank. */
  lemma {:induction false} KeptMembers(replies: seq<Option<string>>, g: string)
    ensures g in Kept(replies) <==> g != "" && Some(g) in replies
    decreases |replies|
  {
    if replies != [] {
      var n := |replies| - 1;
      KeptMembers(replies[..n], g);
      assert replies == replies[..n] + [replies[n]];
    }
  }

  /** When every reply is a non-empty string, every reply is kept, in order. */
  lemma {:induction false} KeptAll(replies: seq<Option<string>>)
    requires forall i :: 0 <= i < |replies| ==> replies[i].Some? && replies[i].value != ""
    ensures |Kept(replies)| == |replies|
    ensures forall i :: 0 <= i < |replies| ==> Some(Kept(replies)[i]) == replies[i]
    decreases |replies|
  {
    if replies != [] {
      var n := |replies| - 1;
      KeptAll(replies[..n]);
      assert Kept(replies) == Kept(replies[..n]) + [replies[n].value];
    }
  }

  /** A kept goal is a non-blank answer with its surrounding whitespace removed. */
  lemma GoalIsStrippedAnswer(answers: seq<string>, g: string)
    requires g in Kept(Replies(answers))
    ensures g != "" && exists i :: 0 <= i < |answers| && Strip(answers[i]) == g
  {
    KeptMembers(Replies(answers), g);
    var i :| 0 <= i < |answers| && Replies(answers)[i] == Some(g);
    assert AskInput(answers[i], None) == Some(g);
  }

  // ---------------------------------------------------------------- step_generate_folders

  /** `folder_map` */
  const FolderMap: map<string, seq<string>> := map[
    "Staying productive" := ["tasks", "notes"],
    "Emotional reflection" := ["journal"],
    "Health and habits" := ["logs", "habits"],
    "Managing goals" := ["goals"],
    "Daily journaling" := ["journal"],
    "Learning new things" := ["notes", "references"]
  ]

  /** Every folder the map can name, in sorted order. */
  const AllFolders: seq<string> := ["goals", "habits", "journal", "logs", "notes", "references", "tasks"]

  /** `folder_map.get(area, [])` */
  function FoldersFor(area: string): (folders: seq<string>)
    ensures area !in FolderMap ==> folders == []
    ensures forall f :: f in folders ==> f in AllFolders
  {
    if area in FolderMap then FolderMap[area] else []
  }

  function Elements(xs: seq<string>): set<string> {
    set x | x in xs
  }

  /** The `created` set: the union of the folders of every area. */
  function AreaFolders(areas: seq<string>): (created: set<string>)
    ensures forall f :: f in created ==> f in AllFolders
    decreases |areas|
  {
    if areas == [] then {}
    else AreaFolders(areas[..|areas| - 1]) + Elements(FoldersFor(areas[|areas| - 1]))
  }

  /** A folder is created exactly when some chosen area maps to it; an area missing from
      the map contributes nothing. */
  lemma {:induction false} AreaFoldersMembers(areas: seq<string>, f: string)
    ensures f in AreaFolders(areas) <==>
            exists i :: 0 <= i < |areas| && areas[i] in FolderMap && f in FolderMap[areas[i]]
    decreases |areas|
  {
    if areas != [] {
      var n := |areas| - 1;
      AreaFoldersMembers(areas[..n], f);
      if exists i :: 0 <= i < |areas| && areas[i] in FolderMap && f in FolderMap[areas[i]] {
        var i :| 0 <= i < |areas| && areas[i] in FolderMap && f in FolderMap[areas[i]];
        if i < n {
          assert areas[..n][i] == areas[i];
        }
      }
      if exists i :: 0 <= i < n && areas[..n][i] in FolderMap && f in FolderMap[areas[..n][i]] {
        var i :| 0 <= i < n && areas[..n][i] in FolderMap && f in FolderMap[areas[..n][i]];
        assert areas[i] == areas[..n][i];
      }
    }
  }

  /** `created` after the folders of `areas` have been added; a repeated folder is added once. */
  method StepGenerateFolders(disk: Storage.Disk, areas: seq<string>) returns (created: set<string>, report: string)
    modifies disk
    ensures created == AreaFolders(areas)
    ensures disk.dirs == old(disk.dirs) + created
    ensures disk.files == old(disk.files)
    ensures report == "Folder created: " + Join(", ", SortedFolders(created))
  {
    created := {};
    for k := 0 to |areas|
      invariant created == AreaFolders(areas[..k])
      invariant disk.dirs == old(disk.dirs) + created
      invariant disk.files == old(disk.files)
    {
      var folders := FoldersFor(areas[k]);
      AreaFoldersPrefix(areas, k);
      var added := MakeFolders(disk, folders);
      created := created + added;
    }
    assert areas[..|areas|] == areas;
    report := "Folder created: " + Join(", ", SortedFolders(created));
  }

  /** The inner loop of `step_generate_folders`: makes each folder of one area and
      returns the folders added to `created`. */
  method MakeFolders(disk: Storage.Disk, folders: seq<string>) returns (added: set<string>)
    modifies disk
    ensures added == Elements(folders)
    ensures disk.dirs == old(disk.dirs) + added
    ensures disk.files == old(disk.files)
  {
    added := {};
    for j := 0 to |folders|
      invariant added == Elements(folders[..j])
      invariant disk.dirs == old(disk.dirs) + added
      invariant disk.files == old(disk.files)
    {
      disk.MakeDirs(folders[j]);
      ElementsPrefix(folders, j);
      added := added + {folders[j]};
    }
    assert folders[..|folders|] == folders;
  }

  lemma AreaFoldersPrefix(areas: seq<string>, k: nat)
    requires k < |areas|
    ensures AreaFolders(areas[..k + 1]) == AreaFolders(areas[..k]) + Elements(FoldersFor(areas[k]))
  {
    assert areas[..k + 1][..k] == areas[..k];
  }

  lemma ElementsPrefix(xs: seq<string>, j: nat)
    requires j < |xs|
    ensures Elements(xs[..j + 1]) == Elements(xs[..j]) + {xs[j]}
  {
    assert xs[..j + 1] == xs[..j] + [xs[j]];
  }

  /** The elements of `xs` that are in `s`, in the order of `xs`. */
  function Keep(xs: seq<string>, s: set<string>): (r: seq<string>)
    ensures forall f :: f in r <==> f in xs && f in s
  {
    if xs == [] then []
    else (if xs[0] in s then [xs[0]] else []) + Keep(xs[1..], s)
  }

  /** `sorted(created)`, for a set of folders the map can name. */
  function SortedFolders(created: set<string>): (r: seq<string>)
    ensures forall f :: f in created && f in AllFolders ==> f in r
    ensures forall f :: f in r ==> f in created
  {
    Keep(AllFolders, created)
  }

  lemma LexLessByFirst(a: string, b: string)
    requires a != [] && b != [] && a[0] < b[0]
    ensures LexLess(a, b)
  {
  }

  lemma AllFoldersSorted()
    ensures StrictlySorted(AllFolders)
  {
    forall i, j | 0 <= i < j < |AllFolders| ensures LexLess(AllFolders[i], AllFolders[j]) {
      LexLessByFirst(AllFolders[i], AllFolders[j]);
    }
  }

  /** Keeping some elements of a strictly increasing list leaves it strictly increasing. */
  lemma {:induction false} KeepSorted(xs: seq<string>, s: set<string>)
    requires StrictlySorted(xs)
    ensures StrictlySorted(Keep(xs, s))
    decreases |xs|
  {
    if xs != [] {
      var tail := xs[1..];
      assert StrictlySorted(tail) by {
        forall i, j | 0 <= i < j < |tail| ensures LexLess(tail[i], tail[j]) {
          assert tail[i] == xs[i + 1] && tail[j] == xs[j + 1];
        }
      }
      KeepSorted(tail, s);
      if xs[0] in s {
        var r := [xs[0]] + Keep(tail, s);
        forall i, j | 0 <= i < j < |r| ensures LexLess(r[i], r[j]) {
          if i == 0 {
            assert r[j] in tail;
            var k :| 0 <= k < |tail| && tail[k] == r[j];
            assert xs[k + 1] == r[j];
          } else {
            assert r[i] == Keep(tail, s)[i - 1] && r[j] == Keep(tail, s)[j - 1];
          }
        }
      }
    }
  }

  /** The reported folder list is the created set in increasing order, each folder once. */
  lemma SortedFoldersSpec(areas: seq<string>)
    ensures var r := SortedFolders(AreaFolders(areas));
            StrictlySorted(r) && (forall f :: f in r <==> f in AreaFolders(areas))
  {
    AllFoldersSorted();
    KeepSorted(AllFolders, AreaFolders(areas));
  }

  // ---------------------------------------------------------------- step_generate_starter_files

  /** `f"{name}"`: an unanswered name prints as `None`. */
  function NameText(name: Option<string>): string {
    match name
    case Some(n) => n
    case None => "None"
  }

  /** The goal block of the journal: `"-" + "\n-".join(goals)`. */
  function GoalBlock(goals: seq<string>): (block: string)
    ensures block != [] && block[0] == '-'
    ensures goals == [] ==> block == "-"
    ensures goals != [] ==> "-" + goals[0] <= block
    ensures goals != [] ==> var last := goals[|goals| - 1];
              |last| < |block| && block[|block| - |last|..] == last
  {
    "-" + Join("\n-", goals)
  }

  const FeelHeading := "## How do you feel today?"
  const DoneHeading := "## What did you accomplish?"
  const ProgressHeading := "## Are you making progress " + "toward your goals?"
  const ReflectHeading := "## Anything you wnat to reflect on?"

  /** `today.md` in the journal folder, written with seven `f.write` calls. */
  function JournalText(name: Option<string>, goals: seq<string>, today: string): string {
    ("# Daily Reflection -" + today + " ") + "\n\n"
    + ("Hi " + NameText(name) + ",") + "\n\n"
    + FeelHeading + "\n\n"
    + DoneHeading + "\n\n"
    + ProgressHeading + "\n"
    + GoalBlock(goals) + "\n\n"
    + ReflectHeading + "\n"
  }

  /** The journal reads line by line as: the title with the date, a blank line, the
      greeting, a blank line, the two questions each followed by a blank line, the
      progress question, one `-<goal>` line per goal (a lone `-` without goals), a blank
      line and the last question. */
  lemma JournalTextLines(name: Option<string>, goals: seq<string>, today: string)
    requires NoLineBreak(today) && NoLineBreak(NameText(name))
    requires forall i :: 0 <= i < |goals| ==> NoLineBreak(goals[i])
    ensures SplitLines(JournalText(name, goals, today)) ==
            ["# Daily Reflection -" + today + " ", "", "Hi " + NameText(name) + ",", "",
             FeelHeading, "", DoneHeading, "", ProgressHeading]
            + PrefixedLines("-", if goals == [] then [""] else goals)
            + ["", ReflectHeading]
  {
    JournalLinesPlain(today, NameText(name));
    ProgressLines(goals, ProgressHeading, ReflectHeading);
    JournalAssembly("# Daily Reflection -" + today + " ", "Hi " + NameText(name) + ",",
                    FeelHeading, DoneHeading, ProgressHeading, GoalBlock(goals),
                    PrefixedLines("-", if goals == [] then [""] else goals), ReflectHeading);
  }

  /** The journal's writes, one after another, read as their lines once the progress
      question, the goal block and the last question are known to read as `tail`. */
  lemma JournalAssembly(title: string, greeting: string, a: string, b: string, c: string,
                        block: string, blockLines: seq<string>, d: string)
    requires NoLineBreak(title) && NoLineBreak(greeting) && NoLineBreak(a) && NoLineBreak(b)
    requires SplitLines(c + "\n" + (block + "\n" + ("\n" + d + "\n"))) == [c] + blockLines + ["", d]
    ensures SplitLines(title + "\n\n" + greeting + "\n\n" + a + "\n\n" + b + "\n\n" + c + "\n"
                       + block + "\n\n" + d + "\n")
         == [title, "", greeting, "", a, "", b, "", c] + blockLines + ["", d]
  {
    JournalShape(title, greeting, a, b, c, block, d);
    var last := c + "\n" + (block + "\n" + ("\n" + d + "\n"));
    var head := [title, "", greeting, "", a, "", b, ""];
    BlankLinePairs(title, greeting, a, b, last);
    Seqs.AppendAssoc(head, [c] + blockLines, ["", d]);
    Seqs.AppendAssoc(head, [c], blockLines);
    assert head + [c] == [title, "", greeting, "", a, "", b, "", c];
  }

  lemma BlankLinePairs(a: string, b: string, c: string, d: string, rest: string)
    requires NoLineBreak(a) && NoLineBreak(b) && NoLineBreak(c) && NoLineBreak(d)
    ensures SplitLines(a + "\n\n" + (b + "\n\n" + (c + "\n\n" + (d + "\n\n" + rest))))
         == [a, "", b, "", c, "", d, ""] + SplitLines(rest)
  {
    var x3 := d + "\n\n" + rest;
    var x2 := c + "\n\n" + x3;
    var x1 := b + "\n\n" + x2;
    var r := SplitLines(rest);
    BlankLineAfter(d, rest);
    BlankLineAfter(c, x3);
    BlankLineAfter(b, x2);
    BlankLineAfter(a, x1);
    assert SplitLines(a + "\n\n" + x1) == [a, ""] + ([b, ""] + ([c, ""] + ([d, ""] + r)));
    FourPairs(a, b, c, d, r);
  }

  lemma FourPairs(a: string, b: string, c: string, d: string, r: seq<string>)
    ensures [a, ""] + ([b, ""] + ([c, ""] + ([d, ""] + r))) == [a, "", b, "", c, "", d, ""] + r
  {
  }

  /** The progress question, the goal block, a blank line and the last question. */
  lemma ProgressLines(goals: seq<string>, question: string, last: string)
    requires NoLineBreak(question) && NoLineBreak(last)
    requires forall i :: 0 <= i < |goals| ==> NoLineBreak(goals[i])
    ensures SplitLines(question + "\n" + (GoalBlock(goals) + "\n" + ("\n" + last + "\n")))
         == [question] + PrefixedLines("-", if goals == [] then [""] else goals) + ["", last]
  {
    var tail := "\n" + last + "\n";
    var block := PrefixedLines("-", if goals == [] then [""] else goals);
    SplitLinesCons(question, GoalBlock(goals) + "\n" + tail);
    GoalBlockThen(goals, tail);
    LastLines(last);
    assert SplitLines(question + "\n" + (GoalBlock(goals) + "\n" + tail)) == [question] + (block + ["", last]);
    Seqs.AppendAssoc([question], block, ["", last]);
  }

  /** A blank line and a last line ending with a line break. */
  lemma LastLines(last: string)
    requires NoLineBreak(last)
    ensures SplitLines("\n" + last + "\n") == ["", last]
  {
    BlankLineFirst(last + "\n");
    assert last + "\n" == last + "\n" + "";
    SplitLinesCons(last, "");
    assert "\n" + last + "\n" == "\n" + (last + "\n");
  }

  /** The seven writes regrouped as one line and its break in front of the rest. */
  lemma JournalShape(title: string, greeting: string, a: string, b: string, c: string, block: string, d: string)
    ensures title + "\n\n" + greeting + "\n\n" + a + "\n\n" + b + "\n\n" + c + "\n" + block + "\n\n" + d + "\n"
         == title + "\n\n" + (greeting + "\n\n" + (a + "\n\n" + (b + "\n\n" +
              (c + "\n" + (block + "\n" + ("\n" + d + "\n"))))))
  {
    assert "\n\n" == "\n" + "\n";
  }

  /** The fixed lines of the journal hold no line break. */
  lemma JournalLinesPlain(today: string, name: string)
    requires NoLineBreak(today) && NoLineBreak(name)
    ensures NoLineBreak("# Daily Reflection -" + today + " ") && NoLineBreak("Hi " + name + ",")
    ensures NoLineBreak(FeelHeading) && NoLineBreak(DoneHeading)
    ensures NoLineBreak(ProgressHeading) && NoLineBreak(ReflectHeading)
  {
    PlainText("# Daily Reflection -");
    PlainText(" ");
    PlainText("Hi ");
    PlainText(",");
    PrefixedLine("# Daily Reflection -", today);
    PrefixedLine("# Daily Reflection -" + today, " ");
    PrefixedLine("Hi ", name);
    PrefixedLine("Hi " + name, ",");
    PlainHeadings();
  }

  lemma PlainHeadings()
    ensures NoLineBreak(FeelHeading) && NoLineBreak(DoneHeading)
    ensures NoLineBreak(ProgressHeading) && NoLineBreak(ReflectHeading)
  {
    FeelHeadingPlain();
    DoneHeadingPlain();
    ProgressHeadingPlain();
    ReflectHeadingPlain();
  }

  lemma FeelHeadingPlain() ensures NoLineBreak(FeelHeading) { PlainText(FeelHeading); }
  lemma DoneHeadingPlain() ensures NoLineBreak(DoneHeading) { PlainText(DoneHeading); }
  lemma ReflectHeadingPlain() ensures NoLineBreak(ReflectHeading) { PlainText(ReflectHeading); }

  lemma ProgressHeadingPlain()
    ensures NoLineBreak(ProgressHeading)
  {
    PlainText("## Are you making progress ");
    PlainText("toward your goals?");
    PrefixedLine("## Are you making progress ", "toward your goals?");
  }

  /** Printable ASCII text holds no line break. */
  lemma PlainText(s: string)
    requires forall c :: c in s ==> ' ' <= c <= '~'
    ensures NoLineBreak(s)
  {
    forall i | 0 <= i < |s| ensures !IsLineBreak(s[i]) {
      assert s[i] in s;
    }
  }

  /** A goal block followed by a line break: one `-<goal>` line per goal (a lone `-`
      without goals), then the lines after it. */
  lemma {:induction false} GoalBlockThen(goals: seq<string>, rest: string)
    requires forall i :: 0 <= i < |goals| ==> NoLineBreak(goals[i])
    ensures SplitLines(GoalBlock(goals) + "\n" + rest) ==
            PrefixedLines("-", if goals == [] then [""] else goals) + SplitLines(rest)
    decreases |goals|
  {
    if goals == [] {
      DashLineThen("", rest);
      assert PrefixedLines("-", [""]) == ["-" + ""];
    } else if |goals| == 1 {
      DashLineThen(goals[0], rest);
      assert GoalBlock(goals) == "-" + goals[0];
      assert PrefixedLines("-", goals) == ["-" + goals[0]];
    } else {
      var tail := goals[1..];
      forall i | 0 <= i < |tail| ensures NoLineBreak(tail[i]) {
        assert tail[i] == goals[i + 1];
      }
      var line, lines := "-" + goals[0], SplitLines(rest);
      GoalBlockThen(tail, rest);
      assert SplitLines(GoalBlock(tail) + "\n" + rest) == PrefixedLines("-", tail) + lines;
      GoalBlockCons(goals);
      LineThen(line, GoalBlock(tail), rest);
      DashLineThen(goals[0], GoalBlock(tail) + "\n" + rest);
      assert SplitLines(GoalBlock(goals) + "\n" + rest) == [line] + (PrefixedLines("-", tail) + lines);
      PrefixedLinesCons("-", goals);
      Seqs.AppendAssoc([line], PrefixedLines("-", tail), lines);
    }
  }

  lemma DashLineThen(goal: string, rest: string)
    requires NoLineBreak(goal)
    ensures SplitLines("-" + goal + "\n" + rest) == ["-" + goal] + SplitLines(rest)
  {
    PlainText("-");
    PrefixedLine("-", goal);
    SplitLinesCons("-" + goal, rest);
  }

  lemma LineThen(line: string, more: string, rest: string)
    ensures line + "\n" + more + "\n" + rest == line + "\n" + (more + "\n" + rest)
  {
  }

  /** One line per item, each being `prefix` followed by the item, in order. */
  function PrefixedLines(prefix: string, items: seq<string>): (lines: seq<string>)
    ensures |lines| == |items|
    ensures forall i :: 0 <= i < |items| ==> lines[i] == prefix + items[i]
  {
    seq(|items|, i requires 0 <= i < |items| => prefix + items[i])
  }

  lemma PrefixedLinesCons(prefix: string, items: seq<string>)
    requires items != []
    ensures PrefixedLines(prefix, items) == [prefix + items[0]] + PrefixedLines(prefix, items[1..])
  {
    var a, b := PrefixedLines(prefix, items), [prefix + items[0]] + PrefixedLines(prefix, items[1..]);
    assert |a| == |b|;
    forall i | 0 <= i < |a| ensures a[i] == b[i] {
      if i > 0 {
        assert items[1..][i - 1] == items[i];
      }
    }
  }

  /** With n >= 1 goals the block splits into n lines, `-` followed by each goal. */
  lemma {:induction false} GoalBlockLines(goals: seq<string>)
    requires goals != []
    requires forall i :: 0 <= i < |goals| ==> NoLineBreak(goals[i])
    ensures SplitLines(GoalBlock(goals)) == PrefixedLines("-", goals)
    decreases |goals|
  {
    var first := "-" + goals[0];
    PrefixedLine("-", goals[0]);
    if |goals| == 1 {
      SplitLinesLast(first);
    } else {
      var rest := goals[1..];
      assert forall i :: 0 <= i < |rest| ==> NoLineBreak(rest[i]) by {
        forall i | 0 <= i < |rest| ensures NoLineBreak(rest[i]) {
          assert rest[i] == goals[i + 1];
        }
      }
      GoalBlockLines(rest);
      GoalBlockCons(goals);
      SplitLinesCons(first, GoalBlock(rest));
      PrefixedLinesCons("-", goals);
    }
  }

  /** A line-break-free prefix before a line-break-free line leaves it without breaks. */
  lemma PrefixedLine(prefix: string, line: string)
    requires NoLineBreak(prefix) && NoLineBreak(line)
    ensures NoLineBreak(prefix + line)
  {
    var s := prefix + line;
    forall k | 0 <= k < |s| ensures !IsLineBreak(s[k]) {
      if k >= |prefix| {
        assert s[k] == line[k - |prefix|];
      } else {
        assert s[k] == prefix[k];
      }
    }
  }

  lemma GoalBlockCons(goals: seq<string>)
    requires |goals| >= 2
    ensures GoalBlock(goals) == ("-" + goals[0]) + "\n" + GoalBlock(goals[1..])
  {
    assert Join("\n-", goals) == goals[0] + "\n-" + Join("\n-", goals[1..]);
  }

  /** With no goals the block is still a single `-` line. */
  lemma GoalBlockNoGoals()
    ensures SplitLines(GoalBlock([])) == ["-"]
  {
    SplitLinesLast("-");
  }

  const GoalsHeader := "# Your Current Goals\n\n"

  /** One `-[ ] <goal>` line per goal. */
  function Checklist(goals: seq<string>): (text: string)
    ensures text == "" <==> goals == []
    ensures text != "" ==> text[|text| - 1] == '\n'
    decreases |goals|
  {
    if goals == [] then "" else "-[ ] " + goals[0] + "\n" + Checklist(goals[1..])
  }

  lemma {:induction false} ChecklistAppend(goals: seq<string>, g: string)
    ensures Checklist(goals + [g]) == Checklist(goals) + "-[ ] " + g + "\n"
    decreases |goals|
  {
    if goals != [] {
      assert (goals + [g])[1..] == goals[1..] + [g];
      ChecklistAppend(goals[1..], g);
    }
  }

  /** `goals.md`: the header, then one line written per goal. */
  method GoalsMarkdown(goals: seq<string>) returns (text: string)
    ensures text == GoalsHeader + Checklist(goals)
  {
    text := GoalsHeader;
    for i := 0 to |goals|
      invariant text == GoalsHeader + Checklist(goals[..i])
    {
      assert goals[..i + 1] == goals[..i] + [goals[i]];
      ChecklistAppend(goals[..i], goals[i]);
      text := text + "-[ ] " + goals[i] + "\n";
    }
    assert goals[..|goals|] == goals;
  }

  /** `goals.md` reads as the header line, a blank line, and exactly one checklist line
      per goal, in goal order. */
  lemma GoalsMarkdownLines(goals: seq<string>)
    requires forall i :: 0 <= i < |goals| ==> NoLineBreak(goals[i])
    ensures SplitLines(GoalsHeader + Checklist(goals)) == ["# Your Current Goals", ""] + PrefixedLines("-[ ] ", goals)
  {
    ChecklistLines(goals);
    HeaderLines(Checklist(goals));
  }

  /** The header of `goals.md` is a title line and a blank line. */
  lemma HeaderLines(body: string)
    ensures SplitLines(GoalsHeader + body) == ["# Your Current Goals", ""] + SplitLines(body)
  {
    var title := "# Your Current Goals";
    PlainText(title);
    assert GoalsHeader == title + "\n\n";
    BlankLineAfter(title, body);
  }

  /** A line followed by a blank line splits as that line, an empty line, then the rest. */
  lemma BlankLineAfter(line: string, rest: string)
    requires NoLineBreak(line)
    ensures SplitLines(line + "\n\n" + rest) == [line, ""] + SplitLines(rest)
  {
    assert line + "\n\n" + rest == line + "\n" + ("\n" + rest);
    BlankLineFirst(rest);
    SplitLinesCons(line, "\n" + rest);
  }

  lemma BlankLineFirst(body: string)
    ensures SplitLines("\n" + body) == [""] + SplitLines(body)
  {
    assert "" + "\n" + body == "\n" + body;
    SplitLinesCons("", body);
  }

  lemma {:induction false} ChecklistLines(goals: seq<string>)
    requires forall i :: 0 <= i < |goals| ==> NoLineBreak(goals[i])
    ensures SplitLines(Checklist(goals)) == PrefixedLines("-[ ] ", goals)
    decreases |goals|
  {
    if goals != [] {
      var box, rest := "-[ ] ", goals[1..];
      var line := box + goals[0];
      assert NoLineBreak(box) by {
        forall k | 0 <= k < |box| ensures !IsLineBreak(box[k]) {
          assert ' ' <= box[k];
        }
      }
      PrefixedLine(box, goals[0]);
      forall i | 0 <= i < |rest| ensures NoLineBreak(rest[i]) {
        assert rest[i] == goals[i + 1];
      }
      ChecklistLines(rest);
      assert Checklist(goals) == line + "\n" + Checklist(rest);
      SplitLinesCons(line, Checklist(rest));
      PrefixedLinesCons(box, goals);
    }
  }


  /** `{"tasks": []}` */
  const StarterTasks: Value := JObj([("tasks", JArr([]))])

  /** The starter task file reads back as an empty task list. */
  lemma StarterTasksLoadEmpty()
    ensures DailyMotivation.LoadTasks(Some(StarterTasks)) == Some([])
  {
    DailyMotivation.LoadTasksList([]);
  }

  /** The folders `step_generate_starter_files` writes into. */
  const StarterDirs: set<string> := {"journal", "tasks", "goals"}

  const TasksPath := Storage.PathOf("tasks", "today.json")
  const GoalsMdPath := Storage.PathOf("goals", "goals.md")

  function JournalPath(today: string): string {
    Storage.PathOf("journal", today + ".md")
  }

  /** The files after the starter files are written in order journal, task list, goal
      list, stopping at the first one whose folder is missing. */
  function StarterFiles(dirs: set<string>, files: map<string, Storage.Content>,
                        name: Option<string>, goals: seq<string>, today: string): (r: map<string, Storage.Content>)
    ensures files.Keys <= r.Keys <= files.Keys + {JournalPath(today), TasksPath, GoalsMdPath}
    ensures "journal" !in dirs ==> r == files
    ensures "journal" in dirs ==>
              JournalPath(today) in r && r[JournalPath(today)] == Storage.TextFile(JournalText(name, goals, today))
  {
    StarterPathsDistinct(today);
    if "journal" !in dirs then files
    else
      var withJournal := files[JournalPath(today) := Storage.TextFile(JournalText(name, goals, today))];
      if "tasks" !in dirs then withJournal
      else
        var withTasks := withJournal[TasksPath := Storage.JsonFile(StarterTasks)];
        if "goals" !in dirs then withTasks
        else withTasks[GoalsMdPath := Storage.TextFile(GoalsHeader + Checklist(goals))]
  }

  /** Writing the starter files touches no other file. */
  lemma StarterFilesKeepOthers(dirs: set<string>, files: map<string, Storage.Content>,
                               name: Option<string>, goals: seq<string>, today: string, p: string)
    requires p != JournalPath(today) && p != TasksPath && p != GoalsMdPath && p in files
    ensures var r := StarterFiles(dirs, files, name, goals, today);
            p in r && r[p] == files[p]
  {
  }

  /** When every starter folder exists, all three files are written with their contents. */
  lemma StarterFilesComplete(dirs: set<string>, files: map<string, Storage.Content>,
                             name: Option<string>, goals: seq<string>, today: string)
    requires StarterDirs <= dirs
    ensures var r := StarterFiles(dirs, files, name, goals, today);
            && JournalPath(today) in r && TasksPath in r && GoalsMdPath in r
            && r[JournalPath(today)] == Storage.TextFile(JournalText(name, goals, today))
            && r[TasksPath] == Storage.JsonFile(StarterTasks)
            && r[GoalsMdPath] == Storage.TextFile(GoalsHeader + Checklist(goals))
  {
    assert "journal" in dirs && "tasks" in dirs && "goals" in dirs;
    StarterPathsDistinct(today);
    ThreeWrites(files, JournalPath(today), Storage.TextFile(JournalText(name, goals, today)),
                TasksPath, Storage.JsonFile(StarterTasks),
                GoalsMdPath, Storage.TextFile(GoalsHeader + Checklist(goals)));
  }

  /** Two writes to distinct paths both survive. */
  lemma TwoWrites<K, V>(m: map<K, V>, k1: K, v1: V, k2: K, v2: V)
    requires k1 != k2
    ensures var r := m[k1 := v1][k2 := v2];
            k1 in r && k2 in r && r[k1] == v1 && r[k2] == v2
  {
  }

  /** Three writes to distinct paths all survive. */
  lemma ThreeWrites<K, V>(m: map<K, V>, k1: K, v1: V, k2: K, v2: V, k3: K, v3: V)
    requires k1 != k2 && k1 != k3 && k2 != k3
    ensures var r := m[k1 := v1][k2 := v2][k3 := v3];
            k1 in r && k2 in r && k3 in r && r[k1] == v1 && r[k2] == v2 && r[k3] == v3
  {
  }

  lemma StarterPathsDistinct(today: string)
    ensures JournalPath(today) != TasksPath && JournalPath(today) != GoalsMdPath && TasksPath != GoalsMdPath
  {
    assert JournalPath(today)[0] == 'j' && TasksPath[0] == 't' && GoalsMdPath[0] == 'g';
  }

  /** `step_generate_starter_files(name, goals)` with `today` the formatted date. Each
      `open(..., "w")` raises when its folder is missing; the files before it stay written. */
  method StepGenerateStarterFiles(disk: Storage.Disk, name: Option<string>, goals: seq<string>, today: string)
    returns (ok: bool)
    modifies disk
    ensures ok <==> StarterDirs <= old(disk.dirs)
    ensures disk.dirs == old(disk.dirs)
    ensures disk.files == StarterFiles(old(disk.dirs), old(disk.files), name, goals, today)
    ensures forall p :: p in old(disk.files) && p != JournalPath(today) && p != TasksPath && p != GoalsMdPath ==>
              p in disk.files && disk.files[p] == old(disk.files)[p]
  {
    forall p | p in disk.files && p != JournalPath(today) && p != TasksPath && p != GoalsMdPath {
      StarterFilesKeepOthers(disk.dirs, disk.files, name, goals, today, p);
    }
    ok := disk.WriteFile("journal", today + ".md", Storage.TextFile(JournalText(name, goals, today)));
    if !ok {
      return;
    }
    ok := disk.WriteFile("tasks", "today.json", Storage.JsonFile(StarterTasks));
    if !ok {
      return;
    }
    var md := GoalsMarkdown(goals);
    ok := disk.WriteFile("goals", "goals.md", Storage.TextFile(md));
  }

  // ---------------------------------------------------------------- run_setup

  /** The record saved to `user_config.json`. */
  datatype Config = Config(name: Option<string>, focusAreas: seq<string>, goals: seq<string>)

  /** `json.dump(config)`: `None` is written as `null`. */
  function ConfigJson(c: Config): (v: Value)
    ensures v.JObj? && |v.members| == 3
    ensures Get(v.members, "name") == Some(if c.name.Some? then JStr(c.name.value) else JNull)
    ensures Get(v.members, "focus_areas") == Some(StringArray(c.focusAreas))
    ensures Get(v.members, "goals") == Some(StringArray(c.goals))
  {
    var name := ("name", match c.name case Some(n) => JStr(n) case None => JNull);
    var areas, goals := ("focus_areas", StringArray(c.focusAreas)), ("goals", StringArray(c.goals));
    FirstOfThree(name, areas, goals, "name");
    JObj([name, areas, goals])
  }

  /** The first of three members is found when the other two carry other keys. */
  lemma FirstOfThree(a: (string, Value), b: (string, Value), c: (string, Value), key: string)
    requires a.0 == key && b.0 != key && c.0 != key
    ensures Get([a, b, c], key) == Some(a.1)
  {
    assert [a, b, c][..2] == [a, b] && [a, b][..1] == [a] && [a][..0] == [];
    assert Get([a], key) == Some(a.1);
    assert Get([a, b], key) == Get([a], key);
  }

  /** Reading a configuration back (`json.load`), `None` when it is not one. */
  function ConfigOf(v: Value): Option<Config> {
    if !v.JObj? then None
    else
      var name := match Get(v.members, "name")
                  case Some(JStr(n)) => Some(Some(n))
                  case Some(JNull) => Some(None)
                  case _ => None;
      var areas := match Get(v.members, "focus_areas")
                   case Some(a) => AsStrings(a)
                   case None => None;
      var goals := match Get(v.members, "goals")
                   case Some(g) => AsStrings(g)
                   case None => None;
      if name.Some? && areas.Some? && goals.Some? then Some(Config(name.value, areas.value, goals.value))
      else None
  }

  /** The saved configuration holds exactly the name, focus areas and goals gathered. */
  lemma ConfigRoundTrip(c: Config)
    ensures ConfigOf(ConfigJson(c)) == Some(c)
  {
    AsStringsOfStringArray(c.focusAreas);
    AsStringsOfStringArray(c.goals);
  }

  const ConfigPath := Storage.PathOf("", "user_config.json")
  const GoalsJsonPath := Storage.PathOf("", "goals.json")

  /** The two files saved by `run_setup` are not starter files. */
  lemma SavedFilesAreNotStarterFiles(today: string)
    ensures ConfigPath != JournalPath(today) && ConfigPath != TasksPath && ConfigPath != GoalsMdPath
    ensures GoalsJsonPath != JournalPath(today) && GoalsJsonPath != TasksPath && GoalsJsonPath != GoalsMdPath
  {
    assert ConfigPath[0] == 'u';
    assert JournalPath(today)[0] == 'j' && TasksPath[0] == 't';
    assert GoalsJsonPath[5] == '.' && GoalsMdPath[5] == '/';
  }

  /** `run_setup()` on the lines the user types. `completed` is false where writing a
      starter file raises: the data folder has no `journal`, `tasks` or `goals` folder and
      no chosen focus area created it. */
  method RunSetup(disk: Storage.Disk, nameAnswer: string, focusAnswers: seq<string>, goalAnswers: seq<string>,
                  env: Option<string>, today: string)
    returns (config: Config, completed: bool)
    requires |focusAnswers| == |FocusOptions| && |goalAnswers| >= Rounds(GoalCount(env))
    modifies disk
    ensures config.name == AskInput(nameAnswer, None)
    ensures config.focusAreas == Pick(FocusOptions, Decisions(focusAnswers))
    ensures config.goals == Kept(Replies(goalAnswers[..Rounds(GoalCount(env))]))
    ensures disk.dirs == old(disk.dirs) + {""} + AreaFolders(config.focusAreas)
    ensures ConfigPath in disk.files && disk.files[ConfigPath] == Storage.JsonFile(ConfigJson(config))
    ensures GoalsJsonPath in disk.files && disk.files[GoalsJsonPath] == Storage.JsonFile(StringArray(config.goals))
    ensures completed <==> StarterDirs <= disk.dirs
    ensures disk.files == StarterFiles(disk.dirs, Saved(old(disk.files), config), config.name, config.goals, today)
    ensures forall p :: p in old(disk.files) && p != ConfigPath && p != GoalsJsonPath
                        && p != JournalPath(today) && p != TasksPath && p != GoalsMdPath ==>
              p in disk.files && disk.files[p] == old(disk.files)[p]
  {
    config := AskAndSave(disk, nameAnswer, focusAnswers, goalAnswers, env);
    SavedFilesAreNotStarterFiles(today);
    completed := StepGenerateStarterFiles(disk, config.name, config.goals, today);
  }

  /** Lines 80-108 of `run_setup`: the questions, the folders and the saved configuration. */
  method AskAndSave(disk: Storage.Disk, nameAnswer: string, focusAnswers: seq<string>, goalAnswers: seq<string>,
                    env: Option<string>)
    returns (config: Config)
    requires |focusAnswers| == |FocusOptions| && |goalAnswers| >= Rounds(GoalCount(env))
    modifies disk
    ensures config.name == AskInput(nameAnswer, None)
    ensures config.focusAreas == Pick(FocusOptions, Decisions(focusAnswers))
    ensures config.goals == Kept(Replies(goalAnswers[..Rounds(GoalCount(env))]))
    ensures disk.dirs == old(disk.dirs) + {""} + AreaFolders(config.focusAreas)
    ensures ConfigPath in disk.files && disk.files[ConfigPath] == Storage.JsonFile(ConfigJson(config))
    ensures GoalsJsonPath in disk.files && disk.files[GoalsJsonPath] == Storage.JsonFile(StringArray(config.goals))
    ensures disk.files == Saved(old(disk.files), config)
  {
    disk.MakeDirs("");
    var name := AskInput(nameAnswer, None);
    var focusAreas := StepFocusAreas(focusAnswers);
    var goals := StepPersonalGoals(env, goalAnswers);
    var created, report := StepGenerateFolders(disk, focusAreas);
    config := Config(name, focusAreas, goals);
    var before := disk.files;
    SaveConfig(disk, config);
    assert ConfigPath[0] != GoalsJsonPath[0];
    TwoWrites(before, ConfigPath, Storage.JsonFile(ConfigJson(config)),
              GoalsJsonPath, Storage.JsonFile(StringArray(config.goals)));
  }

  lemma SavedPathsDistinct()
    ensures ConfigPath != GoalsJsonPath
  {
    assert ConfigPath[0] != GoalsJsonPath[0];
  }

  /** The files after the configuration and the goal list are saved. */
  function Saved(files: map<string, Storage.Content>, config: Config): (r: map<string, Storage.Content>)
    ensures r.Keys == files.Keys + {ConfigPath, GoalsJsonPath}
    ensures ConfigPath in r && r[ConfigPath] == Storage.JsonFile(ConfigJson(config))
    ensures GoalsJsonPath in r && r[GoalsJsonPath] == Storage.JsonFile(StringArray(config.goals))
    ensures forall p :: p in files && p != ConfigPath && p != GoalsJsonPath ==> p in r && r[p] == files[p]
  {
    SavedPathsDistinct();
    files[ConfigPath := Storage.JsonFile(ConfigJson(config))][GoalsJsonPath := Storage.JsonFile(StringArray(config.goals))]
  }

  /** Lines 96-108 of `run_setup`: the configuration and the goal list are written to the
      data folder, which exists. */
  method SaveConfig(disk: Storage.Disk, config: Config)
    requires "" in disk.dirs
    modifies disk
    ensures disk.dirs == old(disk.dirs)
    ensures disk.files == Saved(old(disk.files), config)
  {
    var ok := disk.WriteFile("", "user_config.json", Storage.JsonFile(ConfigJson(config)));
    ok := disk.WriteFile("", "goals.json", Storage.JsonFile(StringArray(config.goals)));
  }

  /** A fresh data folder where only "Health and habits" is chosen: none of the starter
      folders is created, so writing the journal raises. */
  lemma HealthOnlyLeavesJournalMissing(answers: seq<string>)
    requires |answers| == |FocusOptions|
    requires forall i :: 0 <= i < |answers| ==> Strip(answers[i]) == (if i == 2 then "y" else "n")
    ensures Pick(FocusOptions, Decisions(answers)) == ["Health and habits"]
    ensures "journal" !in AreaFolders(Pick(FocusOptions, Decisions(answers)))
  {
    var yes := Decisions(answers);
    HealthOnlyDecisions(answers);
    PickSingle(FocusOptions, yes, 2);
    var areas := Pick(FocusOptions, yes);
    assert areas == ["Health and habits"] by {
      ThirdOption(FocusOptions);
    }
    HealthOnlyFolders(areas);
  }

  /** `run_setup()` on a fresh data folder, answering yes only to "Health and habits"
      (for instance `n n y n n n`): the setup stops before the starter files are written. */
  method HealthOnlySetupStops(nameAnswer: string, focusAnswers: seq<string>, goalAnswers: seq<string>,
                              env: Option<string>, today: string)
    returns (completed: bool)
    requires |focusAnswers| == |FocusOptions| && |goalAnswers| >= Rounds(GoalCount(env))
    requires forall i :: 0 <= i < |focusAnswers| ==> Strip(focusAnswers[i]) == (if i == 2 then "y" else "n")
    ensures !completed
  {
    HealthOnlyLeavesJournalMissing(focusAnswers);
    var disk := new Storage.Disk({}, map[]);
    var config;
    config, completed := RunSetup(disk, nameAnswer, focusAnswers, goalAnswers, env, today);
    assert "journal" !in disk.dirs;
  }

  lemma ThirdOption(options: seq<string>)
    requires options == FocusOptions
    ensures |options| == 6 && [options[2]] == ["Health and habits"]
  {
  }

  lemma HealthOnlyDecisions(answers: seq<string>)
    requires forall i :: 0 <= i < |answers| ==> Strip(answers[i]) == (if i == 2 then "y" else "n")
    ensures forall i :: 0 <= i < |answers| ==> Decisions(answers)[i] == (i == 2)
  {
    forall i | 0 <= i < |answers| ensures Decisions(answers)[i] == (i == 2) {
      if i == 2 {
        AcceptsY(answers[i]);
      } else {
        RejectsN(answers[i]);
      }
    }
  }

  lemma AcceptsY(answer: string)
    requires Strip(answer) == "y"
    ensures Accepts(answer)
  {
    AcceptsIff(answer);
  }

  lemma RejectsN(answer: string)
    requires Strip(answer) == "n"
    ensures !Accepts(answer)
  {
    AcceptsIff(answer);
    assert Strip(answer)[0] == 'n';
  }

  lemma HealthOnlyFolders(areas: seq<string>)
    requires areas == ["Health and habits"]
    ensures AreaFolders(areas) == {"logs", "habits"}
  {
    assert areas[..0] == [];
    assert FoldersFor(areas[0]) == ["logs", "habits"];
  }

  /** When exactly one decision is yes, exactly that option is picked. */
  lemma {:induction false} PickSingle(options: seq<string>, yes: seq<bool>, k: nat)
    requires |yes| == |options| && k < |options|
    requires forall i :: 0 <= i < |yes| ==> yes[i] == (i == k)
    ensures Pick(options, yes) == [options[k]]
    decreases |options|
  {
    var n := |options| - 1;
    if n == k {
      PickNone(options[..n], yes[..n]);
    } else {
      PickSingle(options[..n], yes[..n], k);
    }
  }

  /** When no decision is yes, nothing is picked. */
  lemma {:induction false} PickNone(options: seq<string>, yes: seq<bool>)
    requires |yes| == |options|
    requires forall i :: 0 <= i < |yes| ==> !yes[i]
    ensures Pick(options, yes) == []
    decreases |options|
  {
    if options != [] {
      var n := |options| - 1;
      PickNone(options[..n], yes[..n]);
    }
  }

  /** `run_setup()` with the starter folders made before the starter files are written:
      setup always completes and all three starter files are written. */
  method RunSetupFixed(disk: Storage.Disk, nameAnswer: string, focusAnswers: seq<string>, goalAnswers: seq<string>,
                       env: Option<string>, today: string)
    returns (config: Config, completed: bool)
    requires |focusAnswers| == |FocusOptions| && |goalAnswers| >= Rounds(GoalCount(env))
    modifies disk
    ensures config.name == AskInput(nameAnswer, None)
    ensures config.focusAreas == Pick(FocusOptions, Decisions(focusAnswers))
    ensures config.goals == Kept(Replies(goalAnswers[..Rounds(GoalCount(env))]))
    ensures disk.dirs == old(disk.dirs) + {""} + AreaFolders(config.focusAreas) + StarterDirs
    ensures ConfigPath in disk.files && disk.files[ConfigPath] == Storage.JsonFile(ConfigJson(config))
    ensures completed
    ensures JournalPath(today) in disk.files && TasksPath in disk.files && GoalsMdPath in disk.files
    ensures disk.files[JournalPath(today)] == Storage.TextFile(JournalText(config.name, config.goals, today))
    ensures disk.files[TasksPath] == Storage.JsonFile(StarterTasks)
    ensures disk.files[GoalsMdPath] == Storage.TextFile(GoalsHeader + Checklist(config.goals))
    ensures GoalsJsonPath in disk.files && disk.files[GoalsJsonPath] == Storage.JsonFile(StringArray(config.goals))
    ensures disk.files == StarterFiles(disk.dirs, Saved(old(disk.files), config), config.name, config.goals, today)
    ensures forall p :: p in old(disk.files) && p != ConfigPath && p != GoalsJsonPath
                        && p != JournalPath(today) && p != TasksPath && p != GoalsMdPath ==>
              p in disk.files && disk.files[p] == old(disk.files)[p]
  {
    config := AskAndSave(disk, nameAnswer, focusAnswers, goalAnswers, env);
    SavedFilesAreNotStarterFiles(today);
    completed := StepGenerateStarterFilesFixed(disk, config.name, config.goals, today);
  }

  /** The starter files written after their folders are made: every write succeeds. */
  method StepGenerateStarterFilesFixed(disk: Storage.Disk, name: Option<string>, goals: seq<string>, today: string)
    returns (ok: bool)
    modifies disk
    ensures ok
    ensures disk.dirs == old(disk.dirs) + StarterDirs
    ensures JournalPath(today) in disk.files && TasksPath in disk.files && GoalsMdPath in disk.files
    ensures disk.files[JournalPath(today)] == Storage.TextFile(JournalText(name, goals, today))
    ensures disk.files[TasksPath] == Storage.JsonFile(StarterTasks)
    ensures disk.files[GoalsMdPath] == Storage.TextFile(GoalsHeader + Checklist(goals))
    ensures forall p :: p in old(disk.files) && p != JournalPath(today) && p != TasksPath && p != GoalsMdPath ==>
              p in disk.files && disk.files[p] == old(disk.files)[p]
    ensures disk.files == StarterFiles(disk.dirs, old(disk.files), name, goals, today)
  {
    disk.MakeDirs("journal");
    disk.MakeDirs("tasks");
    disk.MakeDirs("goals");
    var dirs, files := disk.dirs, disk.files;
    assert StarterDirs <= dirs;
    ok := StepGenerateStarterFiles(disk, name, goals, today);
    StarterFilesComplete(dirs, files, name, goals, today);
  }
}
