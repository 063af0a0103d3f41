/** The documents the penalty endpoints read and write, the row shape the
    read endpoint returns, and the first-match lookups it performs. */
module PenaltyModel {
  import opened Results
  import opened Seqs
  import opened Dates

  /** A point-table entry: the label `key` is worth `value` points. */
  datatype PenaltyConfig = PenaltyConfig(id: string, key: string, value: int)

  /** A manually recorded penalty, with exactly the five fields the write
      endpoint sets; `typeLabel` is the record's `type`. */
  datatype Penalty = Penalty(typeId: string, typeLabel: string, username: string, date: string, description: string)

  /** One day of a user's attendance history. */
  datatype StatusEntry = StatusEntry(date: CalendarDate, state: string)

  /** A user's attendance document. */
  datatype AttendanceUser = AttendanceUser(name: string, status: seq<StatusEntry>)

  /** One element of the read endpoint's response array. */
  datatype Row = Row(typeId: string, username: string, typeLabel: string, date: string, description: string, point: int)

  /** Why a read produces no response array: the attendance document is
      absent, or a label that must be priced has no point-table entry. */
  datatype Error = NoAttendanceUser | Unconfigured(key: string)

  /** The three collections, each in store order. */
  datatype Stores = Stores(penalties: seq<Penalty>, configs: seq<PenaltyConfig>, attendance: seq<AttendanceUser>)

  /** Attendance states that cost points, and the labels they are priced under. */
  const LATE_STATE: string := "late"
  const ABSENCE_STATE: string := "absence"
  const LATE_LABEL: string := "지각"
  const ABSENCE_LABEL: string := "결석"

  /** Entry `k` is the first point-table entry labelled `key`. */
  predicate FirstWithKey(configs: seq<PenaltyConfig>, key: string, k: int) {
    && 0 <= k < |configs|
    && configs[k].key == key
    && forall j :: 0 <= j < k ==> configs[j].key != key
  }

  /** Some point-table entry is labelled `key`. */
  predicate Configured(configs: seq<PenaltyConfig>, key: string) {
    exists k :: 0 <= k < |configs| && configs[k].key == key
  }

  /** The point-table entry `penaltyConfig.find(item => item.key === key)` returns. */
  function FindConfig(configs: seq<PenaltyConfig>, key: string): Option<PenaltyConfig> {
    match IndexOfFirst(configs, (c: PenaltyConfig) => c.key == key)
    case None => None
    case Some(k) => Some(configs[k])
  }

  /** The lookup finds nothing exactly when no entry has the label, and
      otherwise finds the first entry that has it. */
  lemma {:induction false} FindConfigFirstMatch(configs: seq<PenaltyConfig>, key: string)
    ensures FindConfig(configs, key).None? <==> !Configured(configs, key)
    ensures FindConfig(configs, key).Some? ==>
      exists k :: FirstWithKey(configs, key, k) && FindConfig(configs, key).value == configs[k]
  {
    IndexOfFirstSpec(configs, (c: PenaltyConfig) => c.key == key);
    var found := IndexOfFirst(configs, (c: PenaltyConfig) => c.key == key);
    if found.Some? {
      assert FirstWithKey(configs, key, found.value);
    }
  }

  /** The attendance document `AttendanceUser.findOne({ name })` returns. */
  function FindUser(users: seq<AttendanceUser>, name: string): Option<AttendanceUser> {
    match IndexOfFirst(users, (u: AttendanceUser) => u.name == name)
    case None => None
    case Some(i) => Some(users[i])
  }

  /** The lookup finds nothing exactly when no document has the name, and
      otherwise finds the first one in store order that has it. */
  lemma {:induction false} FindUserFirstMatch(users: seq<AttendanceUser>, name: string)
    ensures FindUser(users, name).None? <==> forall i :: 0 <= i < |users| ==> users[i].name != name
    ensures FindUser(users, name).Some? ==>
      exists i :: 0 <= i < |users| && users[i] == FindUser(users, name).value && users[i].name == name
                  && forall j :: 0 <= j < i ==> users[j].name != name
  {
    IndexOfFirstSpec(users, (u: AttendanceUser) => u.name == name);
    var found := IndexOfFirst(users, (u: AttendanceUser) => u.name == name);
    if found.Some? {
      assert users[found.value] == FindUser(users, name).value;
    }
  }
}
