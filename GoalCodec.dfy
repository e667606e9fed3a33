/** The mapping between a row of the remote `goals` table (snake_case columns)
    and the in-memory goal object (camelCase fields).

    Every field is an `Option`: `None` is a JavaScript `undefined` or `null`,
    which both functions copy through unchanged except for the three fields
    they default with `||`.  For `reward` (a string) `x || ''` gives `''` for
    `undefined`, `null` and `''` alike; for the two log arrays `x || []` gives
    `[]` for `undefined` and `null` and the array itself otherwise (every array
    is truthy).  Both are exactly `GetOr`. */
module GoalCodec {
  import opened Wrappers

  /** A row as the remote store holds it; field names are the column names. */
  datatype Row = Row(
    id: Option<string>,
    title: Option<string>,
    reason: Option<string>,
    deadline: Option<string>,
    risk: Option<string>,
    reward: Option<string>,
    is_signed: Option<bool>,
    voice_data: Option<string>,
    logs: Option<seq<string>>,
    failure_logs: Option<seq<string>>,
    updated_at: Option<string>)

  /** A goal as the client holds it. */
  datatype Goal = Goal(
    id: Option<string>,
    title: Option<string>,
    reason: Option<string>,
    deadline: Option<string>,
    risk: Option<string>,
    reward: Option<string>,
    isSigned: Option<bool>,
    voiceData: Option<string>,
    logs: Option<seq<string>>,
    failureLogs: Option<seq<string>>)

  /** A goal whose three defaulted fields are present. */
  predicate Complete(g: Goal) {
    g.reward.Some? && g.logs.Some? && g.failureLogs.Some?
  }

  /** `dbToGoal`: a row to a goal. */
  function DbToGoal(row: Row): Goal {
    Goal(
      id := row.id,
      title := row.title,
      reason := row.reason,
      deadline := row.deadline,
      risk := row.risk,
      reward := Some(row.reward.GetOr("")),
      isSigned := row.is_signed,
      voiceData := row.voice_data,
      logs := Some(row.logs.GetOr([])),
      failureLogs := Some(row.failure_logs.GetOr([])))
  }

  /** `goalToDb`: a goal to a row, stamped with the clock reading `now`
      (the ISO string `new Date().toISOString()` gives). */
  function GoalToDb(g: Goal, now: string): Row {
    Row(
      id := g.id,
      title := g.title,
      reason := g.reason,
      deadline := g.deadline,
      risk := g.risk,
      reward := Some(g.reward.GetOr("")),
      is_signed := g.isSigned,
      voice_data := g.voiceData,
      logs := Some(g.logs.GetOr([])),
      failure_logs := Some(g.failureLogs.GetOr([])),
      updated_at := Some(now))
  }

  /** The row with its three defaulted columns filled in, an independent
      statement of what the defaults are. */
  function FillDefaults(row: Row): (r: Row)
    ensures r.reward == (if row.reward.Some? then row.reward else Some(""))
    ensures r.logs == (if row.logs.Some? then row.logs else Some([]))
    ensures r.failure_logs == (if row.failure_logs.Some? then row.failure_logs else Some([]))
    ensures r.(reward := row.reward, logs := row.logs, failure_logs := row.failure_logs) == row
  {
    row.(reward := if row.reward.None? then Some("") else row.reward,
         logs := if row.logs.None? then Some([]) else row.logs,
         failure_logs := if row.failure_logs.None? then Some([]) else row.failure_logs)
  }

  /** Decoding copies five fields, renames three and defaults three: a present value
      is kept as it is, an absent one becomes '' or []. */
  lemma DecodeFields(row: Row)
    ensures var g := DbToGoal(row);
      && g.id == row.id && g.title == row.title && g.reason == row.reason
      && g.deadline == row.deadline && g.risk == row.risk
      && g.isSigned == row.is_signed && g.voiceData == row.voice_data
      && (row.reward.Some? ==> g.reward == row.reward)
      && (row.reward.None? ==> g.reward == Some(""))
      && (row.logs.Some? ==> g.logs == row.logs)
      && (row.logs.None? ==> g.logs == Some([]))
      && (row.failure_logs.Some? ==> g.failureLogs == row.failure_logs)
      && (row.failure_logs.None? ==> g.failureLogs == Some([]))
  {
  }

  /** Encoding applies the same defaults the other way, and stamps `updated_at`
      with the clock reading and nothing else. */
  lemma EncodeFields(g: Goal, now: string)
    ensures var r := GoalToDb(g, now);
      && r.id == g.id && r.title == g.title && r.reason == g.reason
      && r.deadline == g.deadline && r.risk == g.risk
      && r.is_signed == g.isSigned && r.voice_data == g.voiceData
      && (g.reward.Some? ==> r.reward == g.reward)
      && (g.reward.None? ==> r.reward == Some(""))
      && (g.logs.Some? ==> r.logs == g.logs)
      && (g.logs.None? ==> r.logs == Some([]))
      && (g.failureLogs.Some? ==> r.failure_logs == g.failureLogs)
      && (g.failureLogs.None? ==> r.failure_logs == Some([]))
      && r.updated_at == Some(now)
  {
  }

  /** Every decoded goal is complete, and `updated_at` has no influence on it. */
  lemma DecodeNormalizes(row: Row, stamp: Option<string>)
    ensures Complete(DbToGoal(row))
    ensures DbToGoal(row.(updated_at := stamp)) == DbToGoal(row)
  {
  }

  /** Encoding then decoding gives a goal back exactly when its three defaulted
      fields are present. */
  lemma DecodeEncode(g: Goal, now: string)
    ensures DbToGoal(GoalToDb(g, now)) == g <==> Complete(g)
  {
  }

  /** Decoding then encoding gives back the row with its defaults filled in and
      `updated_at` replaced by the clock reading. */
  lemma EncodeDecode(row: Row, now: string)
    ensures GoalToDb(DbToGoal(row), now) == FillDefaults(row).(updated_at := Some(now))
  {
  }

  /** Normalisation is idempotent: a second pass through the store changes nothing,
      whatever the clock says. */
  lemma NormalizeIdempotent(row: Row, g: Goal, now1: string, now2: string)
    ensures DbToGoal(GoalToDb(DbToGoal(row), now1)) == DbToGoal(row)
    ensures GoalToDb(DbToGoal(GoalToDb(g, now1)), now2) == GoalToDb(g, now2)
  {
  }
}
