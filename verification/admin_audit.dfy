/** The audit log page (src/pages/admin/audit/AdminAudit.tsx): the request
    parameters built from the filter controls, the choice between the
    filtered and the plain endpoint, the local email filter, the CSS class of
    an action and the status cell. The two endpoints' answers are parameters. */
module AdminAudit {
  import opened Domain
  import opened Seqs
  import opened Text
  import Formatters

  /** AuditLog, restricted to the fields the page computes with. */
  datatype AuditLog = AuditLog(id: int, adminEmail: string, actionType: string, entityType: string, status: Option<string>)

  // ---------------------------------------------------------------------------
  // Action class
  // ---------------------------------------------------------------------------

  /** The CSS classes an action can get. */
  datatype ActionClass = CreateClass | DeleteClass | UpdateClass | LoginClass | ApprovedClass | RejectedClass | PendingClass

  /** `getActionClass(action)`: the first keyword the action contains decides,
      in the order CREATE, DELETE, UPDATE, LOGIN, REGISTER, LOGIN, APPROVED,
      REJECTED, PENDING; an action with none of them gets the update class. */
  function GetActionClass(action: string): (c: ActionClass)
    ensures c == CreateClass <==> Includes(action, "CREATE")
    ensures c == DeleteClass <==> !Includes(action, "CREATE") && Includes(action, "DELETE")
    ensures c == LoginClass <==>
              !Includes(action, "CREATE") && !Includes(action, "DELETE") && !Includes(action, "UPDATE")
              && (Includes(action, "LOGIN") || Includes(action, "REGISTER"))
    ensures c == UpdateClass <==>
              !Includes(action, "CREATE") && !Includes(action, "DELETE")
              && (Includes(action, "UPDATE")
                  || (!Includes(action, "LOGIN") && !Includes(action, "REGISTER") && !Includes(action, "APPROVED")
                      && !Includes(action, "REJECTED") && !Includes(action, "PENDING")))
  {
    if Includes(action, "CREATE") then CreateClass
    else if Includes(action, "DELETE") then DeleteClass
    else if Includes(action, "UPDATE") then UpdateClass
    else if Includes(action, "LOGIN") then LoginClass
    else if Includes(action, "REGISTER") then LoginClass
    else if Includes(action, "LOGIN") then LoginClass
    else if Includes(action, "APPROVED") then ApprovedClass
    else if Includes(action, "REJECTED") then RejectedClass
    else if Includes(action, "PENDING") then PendingClass
    else UpdateClass
  }

  /** A reference definition: the class of the first keyword of a priority table the action contains. */
  function FirstKeyword(table: seq<(string, ActionClass)>, action: string, default: ActionClass): ActionClass
    decreases |table|
  {
    if |table| == 0 then default
    else if Includes(action, table[0].0) then table[0].1
    else FirstKeyword(table[1..], action, default)
  }

  /** The priority table without the repeated LOGIN entry. */
  const Priority: seq<(string, ActionClass)> := [
    ("CREATE", CreateClass), ("DELETE", DeleteClass), ("UPDATE", UpdateClass),
    ("LOGIN", LoginClass), ("REGISTER", LoginClass),
    ("APPROVED", ApprovedClass), ("REJECTED", RejectedClass), ("PENDING", PendingClass)]

  /** The class is the first matching entry of the priority table, so the
      second LOGIN test never decides anything. */
  lemma ActionClassIsFirstKeyword(action: string)
    ensures GetActionClass(action) == FirstKeyword(Priority, action, UpdateClass)
  {
    var t := Priority;
    assert t[1..][1..][1..][1..][1..][1..][1..][1..] == [];
  }

  /** An action naming both CREATE and DELETE is shown as a creation. */
  lemma CreateBeatsDelete(action: string)
    requires Includes(action, "CREATE") && Includes(action, "DELETE")
    ensures GetActionClass(action) == CreateClass
  {
  }

  // ---------------------------------------------------------------------------
  // Request parameters
  // ---------------------------------------------------------------------------

  /** A control's value, or nothing when it is null or empty. */
  function OrUndefined(value: Option<string>): (r: Option<string>)
    ensures r.None? <==> FalsyString(value)
    ensures r.Some? ==> r == value && r.value != ""
  {
    if FalsyString(value) then None else value
  }

  /** The `params` object of `fetchLogs`. */
  datatype Params = Params(actionType: Option<string>, entityType: Option<string>, from: Option<string>, to: Option<string>)

  /** Builds `params` from the controls: an empty selector or date is left undefined,
      a date is sent as day-month-year. */
  function BuildParams(actionType: string, entityType: string, fromDate: string, toDate: string): (p: Params)
    ensures p.actionType.None? <==> actionType == ""
    ensures p.entityType.None? <==> entityType == ""
    ensures p.from.None? <==> fromDate == ""
    ensures p.to.None? <==> toDate == ""
    ensures p.actionType.Some? ==> p.actionType.value == actionType
    ensures p.entityType.Some? ==> p.entityType.value == entityType
    ensures p.from.Some? ==> Some(p.from.value) == Formatters.FormatDateForBackend(fromDate)
    ensures p.to.Some? ==> Some(p.to.value) == Formatters.FormatDateForBackend(toDate)
  {
    Params(OrUndefined(Some(actionType)), OrUndefined(Some(entityType)),
           OrUndefined(Formatters.FormatDateForBackend(fromDate)),
           OrUndefined(Formatters.FormatDateForBackend(toDate)))
  }

  /** Some request parameter is present: the page then asks the filter endpoint. */
  predicate UsesFilterEndpoint(p: Params)
  {
    p.actionType.Some? || p.entityType.Some? || p.from.Some? || p.to.Some?
  }

  /** The filter endpoint is asked exactly when some control is set. */
  lemma FilterEndpointIffSomeControl(actionType: string, entityType: string, fromDate: string, toDate: string)
    ensures UsesFilterEndpoint(BuildParams(actionType, entityType, fromDate, toDate)) <==>
              actionType != "" || entityType != "" || fromDate != "" || toDate != ""
  {
  }

  function ByEmail(email: string): AuditLog -> bool
  {
    (log: AuditLog) => log.adminEmail == email
  }

  /** The local email filter: an exact, case-sensitive match on the admin's
      email, applied only when an email is typed. */
  function FilterByEmail(logs: seq<AuditLog>, email: string): (r: seq<AuditLog>)
    ensures email == "" ==> r == logs
    ensures IsSubseq(r, logs)
    ensures email != "" ==> forall log :: log in r <==> log in logs && log.adminEmail == email
  {
    if email == "" then
      SubseqRefl(logs);
      logs
    else
      FilterIsSubseq(logs, ByEmail(email));
      Filter(logs, ByEmail(email))
  }

  /** Some filter control (action, entity, start or end date) is set. */
  predicate SomeControlSet(actionType: string, entityType: string, fromDate: string, toDate: string)
  {
    actionType != "" || entityType != "" || fromDate != "" || toDate != ""
  }

  /** `fetchLogs()` once both endpoints' answers are known: the filtered answer
      when some control is set, the plain one otherwise, then the email filter. */
  function FetchLogs(actionType: string, entityType: string, fromDate: string, toDate: string, email: string,
                     filteredAnswer: seq<AuditLog>, plainAnswer: seq<AuditLog>): (r: seq<AuditLog>)
    ensures !SomeControlSet(actionType, entityType, fromDate, toDate) ==> IsSubseq(r, plainAnswer)
    ensures SomeControlSet(actionType, entityType, fromDate, toDate) ==> IsSubseq(r, filteredAnswer)
    ensures email == "" ==>
              r == if SomeControlSet(actionType, entityType, fromDate, toDate) then filteredAnswer else plainAnswer
    ensures email != "" ==> forall log :: log in r <==>
              log.adminEmail == email
              && log in (if SomeControlSet(actionType, entityType, fromDate, toDate) then filteredAnswer else plainAnswer)
  {
    FilterEndpointIffSomeControl(actionType, entityType, fromDate, toDate);
    var data := if UsesFilterEndpoint(BuildParams(actionType, entityType, fromDate, toDate))
                then filteredAnswer else plainAnswer;
    FilterByEmail(data, email)
  }

  // ---------------------------------------------------------------------------
  // Status cell
  // ---------------------------------------------------------------------------

  const RecipeEntity: string := "RECIPE"

  /** The status column: the log's status when its entity type, trimmed and
      upper-cased, is RECIPE, and nothing otherwise; a null status renders as nothing. */
  function StatusCell(log: AuditLog): (text: string)
    ensures ToUpper(Trim(log.entityType)) != RecipeEntity ==> text == ""
    ensures ToUpper(Trim(log.entityType)) == RecipeEntity && log.status.Some? ==> text == log.status.value
    ensures log.status.None? ==> text == ""
  {
    if ToUpper(Trim(log.entityType)) == RecipeEntity && log.status.Some? then log.status.value else ""
  }

  /** Surrounding blanks and letter case of the entity type do not matter:
      any spelling of RECIPE in any letter case, with any blanks around it,
      shows the status. */
  lemma StatusCellIgnoresBlanksAndCase(log: AuditLog, pre: string, s: string, post: string)
    requires IsBlank(pre) && IsBlank(post) && ToUpper(s) == RecipeEntity
    requires log.entityType == pre + s + post
    ensures StatusCell(log) == if log.status.Some? then log.status.value else ""
  {
    assert ToUpper(s)[0] == 'R' && ToUpper(s)[|s| - 1] == 'E';
    TrimPadded(pre, s, post);
  }
}
