/** The habit tracker screen: one goal contract, a history of days on which
    it was kept, and the current view.  Loading from local storage is a
    parameter (`None` when nothing is saved), and so is the clock reading. */
module HabitTracker {
  import opened Wrappers

  /** The three screens. */
  datatype View = Setup | History | Dashboard

  /** The goal contract as the setup screen edits it. */
  datatype GoalData = GoalData(
    title: string,
    reason: string,
    deadline: string,
    risk: string,
    reward: string,
    isStarted: bool)

  /** One day on which the goal was kept. */
  datatype LogEntry = LogEntry(date: string, goal: string)

  /** The goal data used when nothing is saved. */
  const EmptyGoalData := GoalData("", "", "", "", "", false)

  /** The goal data the screen starts with. */
  function InitialGoalData(saved: Option<GoalData>): (g: GoalData)
    ensures saved.Some? ==> g == saved.value
    ensures saved.None? ==> g.title == g.reason == g.deadline == g.risk == g.reward == "" && !g.isStarted
  {
    saved.GetOr(EmptyGoalData)
  }

  /** The history the screen starts with. */
  function InitialHistory(saved: Option<seq<LogEntry>>): (h: seq<LogEntry>)
    ensures saved.Some? ==> h == saved.value
    ensures saved.None? ==> h == []
  {
    saved.GetOr([])
  }

  /** The first screen: the dashboard exactly for a started goal, never the history. */
  function InitialView(g: GoalData): (v: View)
    ensures v == Dashboard <==> g.isStarted
    ensures v == Setup <==> !g.isStarted
  {
    if g.isStarted then Dashboard else Setup
  }

  /** The calendar date of an ISO timestamp: everything before the first 'T'
      (all of it when there is none). */
  function DatePart(iso: string): (d: string)
    ensures d <= iso
    ensures 'T' !in d
    ensures |d| < |iso| ==> iso[|d|] == 'T'
  {
    if iso == [] || iso[0] == 'T' then [] else [iso[0]] + DatePart(iso[1..])
  }

  /** The three properties of `DatePart` single out its result. */
  lemma {:induction false} DatePartUnique(iso: string, d: string)
    requires d <= iso && 'T' !in d && (|d| < |iso| ==> iso[|d|] == 'T')
    ensures d == DatePart(iso)
  {
    if d != [] {
      assert iso[0] == d[0] && d[0] != 'T';
      assert d[1..] <= iso[1..] && 'T' !in d[1..];
      DatePartUnique(iso[1..], d[1..]);
    }
  }

  /** Whether some entry of the history is dated `today`. */
  function IsDoneToday(history: seq<LogEntry>, today: string): (done: bool)
    ensures done <==> exists i :: 0 <= i < |history| && history[i].date == today
  {
    |history| > 0 && (history[0].date == today || IsDoneToday(history[1..], today))
  }

  /** The history after the done button: a new entry for `today` in front,
      unless today is already recorded. */
  function RecordDone(history: seq<LogEntry>, today: string, title: string): (h: seq<LogEntry>)
    ensures IsDoneToday(h, today)
    ensures IsDoneToday(history, today) ==> h == history
    ensures !IsDoneToday(history, today) ==>
      |h| == |history| + 1 && h[0] == LogEntry(today, title) && h[1..] == history
  {
    if IsDoneToday(history, today) then history else [LogEntry(today, title)] + history
  }

  /** No two entries share a date. */
  predicate DistinctDates(history: seq<LogEntry>) {
    forall i, j :: 0 <= i < j < |history| ==> history[i].date != history[j].date
  }

  /** Recording the same day twice is the same as recording it once, whatever
      the title is the second time. */
  lemma RecordDoneIdempotent(history: seq<LogEntry>, today: string, title1: string, title2: string)
    ensures RecordDone(RecordDone(history, today, title1), today, title2) == RecordDone(history, today, title1)
  {
  }

  /** Recording a day keeps the dates of the history pairwise distinct. */
  lemma RecordDoneDistinct(history: seq<LogEntry>, today: string, title: string)
    requires DistinctDates(history)
    ensures DistinctDates(RecordDone(history, today, title))
  {
    var h := RecordDone(history, today, title);
    if !IsDoneToday(history, today) {
      forall i, j | 0 <= i < j < |h| ensures h[i].date != h[j].date {
        if i == 0 {
          assert h[j] == history[j - 1];
        } else {
          assert h[i] == history[i - 1] && h[j] == history[j - 1];
        }
      }
    }
  }

  /** The component's state; each handler replaces some of it. */
  class App {
    var goalData: GoalData
    var history: seq<LogEntry>
    var currentView: View

    /** The initial render: saved data or the defaults, then the initial view. */
    constructor (savedGoal: Option<GoalData>, savedHistory: Option<seq<LogEntry>>)
      ensures goalData == InitialGoalData(savedGoal)
      ensures history == InitialHistory(savedHistory)
      ensures currentView == InitialView(goalData)
    {
      goalData := InitialGoalData(savedGoal);
      history := InitialHistory(savedHistory);
      currentView := InitialView(InitialGoalData(savedGoal));
    }

    /** The start button: with a title and a reason the goal is started and the
        dashboard shown; otherwise nothing changes. */
    method HandleStart()
      modifies this
      ensures old(goalData.title) != "" && old(goalData.reason) != "" ==>
        goalData == old(goalData).(isStarted := true) && currentView == Dashboard
      ensures !(old(goalData.title) != "" && old(goalData.reason) != "") ==>
        goalData == old(goalData) && currentView == old(currentView)
      ensures history == old(history)
      ensures old(goalData.isStarted) ==> goalData.isStarted
    {
      if goalData.title != "" && goalData.reason != "" {
        goalData := goalData.(isStarted := true);
        currentView := Dashboard;
      }
    }

    /** The done button at clock reading `now`: today's entry is added once. */
    method HandleDone(now: string)
      modifies this
      ensures history == RecordDone(old(history), DatePart(now), old(goalData.title))
      ensures DistinctDates(old(history)) ==> DistinctDates(history)
      ensures goalData == old(goalData) && currentView == old(currentView)
    {
      var today := DatePart(now);
      if !IsDoneToday(history, today) {
        history := [LogEntry(today, goalData.title)] + history;
      }
      if DistinctDates(old(history)) {
        RecordDoneDistinct(old(history), today, goalData.title);
      }
    }

    /** The title input. */
    method EditTitle(value: string)
      modifies this
      ensures goalData == old(goalData).(title := value)
      ensures history == old(history) && currentView == old(currentView)
    {
      goalData := goalData.(title := value);
    }

    /** The reason text area. */
    method EditReason(value: string)
      modifies this
      ensures goalData == old(goalData).(reason := value)
      ensures history == old(history) && currentView == old(currentView)
    {
      goalData := goalData.(reason := value);
    }

    /** The deadline date input. */
    method EditDeadline(value: string)
      modifies this
      ensures goalData == old(goalData).(deadline := value)
      ensures history == old(history) && currentView == old(currentView)
    {
      goalData := goalData.(deadline := value);
    }

    /** The reward input. */
    method EditReward(value: string)
      modifies this
      ensures goalData == old(goalData).(reward := value)
      ensures history == old(history) && currentView == old(currentView)
    {
      goalData := goalData.(reward := value);
    }

    /** The risk input. */
    method EditRisk(value: string)
      modifies this
      ensures goalData == old(goalData).(risk := value)
      ensures history == old(history) && currentView == old(currentView)
    {
      goalData := goalData.(risk := value);
    }

    /** The three buttons of the bottom navigation. */
    method Navigate(view: View)
      modifies this
      ensures currentView == view
      ensures goalData == old(goalData) && history == old(history)
    {
      currentView := view;
    }
  }
}
