/**
 * The data interfaces the timesheet quiz works on (components/Quizz.tsx and
 * api/quizz.ts). Every one of them is a plain value: none is updated in place.
 */
module Model {
  import opened Wrappers

  /** A calendar day with no time of day; `month` is zero-based, as JavaScript's Date has it. */
  datatype QuizzDate = QuizzDate(day: int, month: int, year: int)

  type Positive = n: int | n > 0 witness 1

  /**
   * A task's default share of the day, `num / den`. It stands in for the
   * floating-point `percent` field, so `percent * 8` is computed exactly.
   */
  datatype Ratio = Ratio(num: int, den: Positive)

  datatype Color = Gray | Red | Green | Yellow | Blue | Indigo | Purple

  /** Credentials of the worklog service. */
  datatype TempoConfig = TempoConfig(accountId: string, apiKey: string)

  /** Credentials of the issue tracker, with the optional worklog credentials. */
  datatype JiraConfig = JiraConfig(account: string, token: string, tempo: Option<TempoConfig>)

  /**
   * A task's link to the issue tracker: its own credentials, a fixed ticket
   * key, or a status whose first ticket is wanted.
   */
  datatype JiraTask = JiraTask(
    config: Option<JiraConfig>,
    ticket: Option<string>,
    status: Option<string>,
    keep: Option<int>)

  /** One allocatable task. Ids need not be unique; the engine keys tasks by position. */
  datatype Task = Task(
    id: string,
    title: string,
    color: Color,
    percent: Option<Ratio>,
    jira: Option<JiraTask>)

  datatype Config = Config(defaultJiraConfig: JiraConfig, tasks: seq<Task>)

  /** Hours given to one task on one day. */
  datatype Time = Time(id: string, title: string, time: int)

  /** What a completed quiz hands back: the day and the per-task hours. */
  datatype TimeResult = TimeResult(date: QuizzDate, times: seq<Time>)

  /** JavaScript truthiness of an optional string: present and not empty. */
  predicate Truthy(s: Option<string>)
  {
    s.Some? && s.value != ""
  }
}
