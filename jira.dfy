/**
 * The issue-tracker side of a task (utils/jira.ts and the fallback in
 * components/TaskItem.tsx): which ticket a task resolves to, the search
 * request it takes, and the worklog record posted to the worklog service.
 * The HTTP calls themselves are not modelled: a search is a function from the
 * request to the issues found or the error raised.
 */
module Jira {
  import opened Wrappers
  import opened Model

  /** A ticket as the search reports it; a fixed ticket key has no summary. */
  datatype JiraIssue = JiraIssue(key: string, summary: Option<string>)

  /** One ticket search: the status sought, the credentials used and the result cap. */
  datatype SearchRequest = SearchRequest(status: string, config: JiraConfig, keep: Option<int>)

  /** The issue tracker's search, as seen from here: the issues found, or the error raised. */
  type Search = SearchRequest -> Result<seq<JiraIssue>, string>

  /**
   * What resolving a task's ticket gives: the ticket (or none), or the error
   * the search raised; and the searches that were made, in order.
   */
  datatype Lookup = Lookup(outcome: Result<Option<JiraIssue>, string>, searches: seq<SearchRequest>)

  // ---------------------------------------------------------------------------
  // getJiraTicket (utils/jira.ts:4-17)
  // ---------------------------------------------------------------------------

  /**
   * `getJiraTicket`: no link gives no ticket; a non-empty fixed ticket is used
   * as it is; otherwise a non-empty status is searched for, capped at one
   * result, and the first issue found (if any) is the ticket.
   */
  function GetJiraTicket(jiraTask: Option<JiraTask>, jiraConfig: JiraConfig, search: Search): (r: Lookup)
    ensures |r.searches| <= 1
    ensures r.outcome.Success? && r.outcome.value.Some? ==>
      (jiraTask.Some? && Truthy(jiraTask.value.ticket) && r.outcome.value.value.key == jiraTask.value.ticket.value)
      || (r.searches != [] && search(r.searches[0]).Success? && |search(r.searches[0]).value| > 0
          && r.outcome.value.value == search(r.searches[0]).value[0])
    ensures r.outcome.Failure? ==> r.searches != [] && search(r.searches[0]) == Failure(r.outcome.error)
  {
    match jiraTask
    case None => Lookup(Success(None), [])
    case Some(t) =>
      if Truthy(t.ticket) then
        Lookup(Success(Some(JiraIssue(t.ticket.value, None))), [])
      else if Truthy(t.status) then
        var request := SearchRequest(t.status.value, jiraConfig, Some(1));
        match search(request)
        case Failure(e) => Lookup(Failure(e), [request])
        case Success(tickets) =>
          if |tickets| == 0 then Lookup(Success(None), [request])
          else Lookup(Success(Some(tickets[0])), [request])
      else
        Lookup(Success(None), [])
  }

  /** An absent link yields no ticket and no search. */
  lemma NoLinkNoTicket(jiraConfig: JiraConfig, search: Search)
    ensures GetJiraTicket(None, jiraConfig, search) == Lookup(Success(None), [])
  {
  }

  /**
   * A non-empty fixed ticket is the answer, with no search, whatever the
   * status says.
   */
  lemma FixedTicketWins(t: JiraTask, jiraConfig: JiraConfig, search: Search)
    requires Truthy(t.ticket)
    ensures GetJiraTicket(Some(t), jiraConfig, search)
         == Lookup(Success(Some(JiraIssue(t.ticket.value, None))), [])
  {
  }

  /**
   * Without a usable ticket but with a non-empty status, exactly one search
   * is made, for that status with a cap of one result, and its outcome decides:
   * an error is passed on, an empty result gives no ticket, otherwise the first
   * issue is the ticket.
   */
  lemma StatusSearch(t: JiraTask, jiraConfig: JiraConfig, search: Search)
    requires !Truthy(t.ticket) && Truthy(t.status)
    ensures var r := GetJiraTicket(Some(t), jiraConfig, search);
      var request := SearchRequest(t.status.value, jiraConfig, Some(1));
      && r.searches == [request]
      && (search(request).Failure? ==> r.outcome == Failure(search(request).error))
      && (search(request) == Success([]) ==> r.outcome == Success(None))
      && (search(request).Success? && search(request).value != [] ==>
            r.outcome == Success(Some(search(request).value[0])))
  {
  }

  /** With neither a usable ticket nor a usable status, there is no ticket and no search. */
  lemma NeitherNoTicket(t: JiraTask, jiraConfig: JiraConfig, search: Search)
    requires !Truthy(t.ticket) && !Truthy(t.status)
    ensures GetJiraTicket(Some(t), jiraConfig, search) == Lookup(Success(None), [])
  {
  }

  /**
   * The recorded searches are the only contact with the tracker: two search
   * functions that agree on them give the same lookup.
   */
  lemma OnlyRecordedSearches(jiraTask: Option<JiraTask>, jiraConfig: JiraConfig, s1: Search, s2: Search)
    requires forall k :: 0 <= k < |GetJiraTicket(jiraTask, jiraConfig, s1).searches| ==>
      s1(GetJiraTicket(jiraTask, jiraConfig, s1).searches[k]) == s2(GetJiraTicket(jiraTask, jiraConfig, s1).searches[k])
    ensures GetJiraTicket(jiraTask, jiraConfig, s1) == GetJiraTicket(jiraTask, jiraConfig, s2)
  {
  }

  // ---------------------------------------------------------------------------
  // The task item's lookup (components/TaskItem.tsx:32-40)
  // ---------------------------------------------------------------------------

  /** `value.jira?.config || defaultJiraConfig`: the task's own credentials, else the default ones. */
  function EffectiveConfig(jira: JiraTask, defaultConfig: JiraConfig): (c: JiraConfig)
    ensures jira.config.Some? ==> c == jira.config.value
    ensures jira.config.None? ==> c == defaultConfig
  {
    match jira.config
    case Some(own) => own
    case None => defaultConfig
  }

  /** A task's ticket as its list item resolves it: only a linked task is looked up. */
  function TaskTicket(task: Task, defaultConfig: JiraConfig, search: Search): (r: Lookup)
    ensures task.jira.None? ==> r == Lookup(Success(None), [])
    ensures |r.searches| <= 1
    ensures r.outcome.Failure? ==> r.searches != [] && search(r.searches[0]) == Failure(r.outcome.error)
  {
    match task.jira
    case None => Lookup(Success(None), [])
    case Some(jira) => GetJiraTicket(task.jira, EffectiveConfig(jira, defaultConfig), search)
  }

  /**
   * Every search made for a task asks for the task's own status, with the
   * task's own credentials when it has them and the default ones otherwise,
   * capped at one result.
   */
  lemma TaskSearchUsesEffectiveConfig(task: Task, defaultConfig: JiraConfig, search: Search)
    ensures forall req :: req in TaskTicket(task, defaultConfig, search).searches ==>
      && task.jira.Some?
      && req == SearchRequest(task.jira.value.status.value, EffectiveConfig(task.jira.value, defaultConfig), Some(1))
  {
  }

  // ---------------------------------------------------------------------------
  // The search request (utils/jira.ts:24-31)
  // ---------------------------------------------------------------------------

  const JqlPrefix: string := "assignee=currentuser() and status=\""
  const JqlSuffix: string := "\" order by rank"

  /** The query text: the current user's tickets in `status`, by rank. */
  function Jql(status: string): (q: string)
    ensures |q| == |JqlPrefix| + |status| + |JqlSuffix|
    ensures q[..|JqlPrefix|] == JqlPrefix
    ensures q[|JqlPrefix|..|JqlPrefix| + |status|] == status
    ensures q[|JqlPrefix| + |status|..] == JqlSuffix
  {
    JqlPrefix + status + JqlSuffix
  }

  /** Different statuses give different queries. */
  lemma JqlInjective(a: string, b: string)
    requires Jql(a) == Jql(b)
    ensures a == b
  {
    assert |a| == |b|;
  }

  /** The query parameters of a search. */
  datatype QueryParams = QueryParams(jql: string, fields: string, maxResults: Option<int>)

  /**
   * The parameters appended to the search URL: the query, the summary field,
   * and `maxResults` only for a truthy (present, non-zero) `keep`.
   */
  function SearchParams(status: string, keep: Option<int>): (p: QueryParams)
    ensures p.jql == Jql(status) && p.fields == "summary"
    ensures p.maxResults.Some? <==> keep.Some? && keep.value != 0
    ensures p.maxResults.Some? ==> p.maxResults.value == keep.value
  {
    QueryParams(
      Jql(status),
      "summary",
      if keep.Some? && keep.value != 0 then keep else None)
  }

  /** The parameters of the one search `getJiraTicket` makes: capped at one result. */
  lemma RequestParams(t: JiraTask, jiraConfig: JiraConfig, search: Search)
    requires !Truthy(t.ticket) && Truthy(t.status)
    ensures var r := GetJiraTicket(Some(t), jiraConfig, search);
      SearchParams(r.searches[0].status, r.searches[0].keep)
        == QueryParams(Jql(t.status.value), "summary", Some(1))
  {
  }

  // ---------------------------------------------------------------------------
  // The worklog record (utils/jira.ts:45-52)
  // ---------------------------------------------------------------------------

  /** The body posted to the worklog service. */
  datatype Worklog = Worklog(
    startDate: string,
    startTime: string,
    issueKey: string,
    timeSpentSeconds: int,
    authorAccountId: string)

  /**
   * The record `postTempoWorklog` posts: the caller's date, start time, ticket
   * and duration as given, authored by the worklog account (the API key goes
   * in the request header, not in the record).
   */
  function TempoWorklog(issueKey: string, startDate: string, startTime: string, timeSpentSeconds: int, config: TempoConfig): (w: Worklog)
    ensures w.issueKey == issueKey && w.startDate == startDate && w.startTime == startTime
    ensures w.timeSpentSeconds == timeSpentSeconds
    ensures w.authorAccountId == config.accountId
  {
    Worklog(startDate, startTime, issueKey, timeSpentSeconds, config.accountId)
  }
}
