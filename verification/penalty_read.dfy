/** The read endpoint (`GET /read/:username`): attendance-derived rows for
    the late and absent days in the range, then the user's manual penalty
    records in the range, each priced from the point table. */
module PenaltyRead {
  import opened Results
  import opened Seqs
  import opened StringOrder
  import opened Dates
  import opened PenaltyModel

  // ------------------------------------------------------------ the handler

  /** Inclusive calendar range test, as the handler compares moments. */
  predicate InRange(d: CalendarDate, start: CalendarDate, end: CalendarDate) {
    Le(start, d) && Le(d, end)
  }

  /** The rows one in-range attendance entry contributes: one priced row for
      a late or absent day, none for any other state. */
  function StatusRows(e: StatusEntry, configs: seq<PenaltyConfig>, username: string): Result<seq<Row>, Error> {
    if e.state == LATE_STATE then
      match FindConfig(configs, LATE_LABEL)
      case None => Failure(Unconfigured(LATE_LABEL))
      case Some(val) => Success([Row(val.id, username, LATE_LABEL, Format(e.date), LATE_LABEL, val.value)])
    else if e.state == ABSENCE_STATE then
      match FindConfig(configs, ABSENCE_LABEL)
      case None => Failure(Unconfigured(ABSENCE_LABEL))
      case Some(val) => Success([Row(val.id, username, ABSENCE_LABEL, Format(e.date), ABSENCE_LABEL, val.value)])
    else
      Success([])
  }

  /** The pass over the attendance status list. */
  function AttendanceRows(status: seq<StatusEntry>, configs: seq<PenaltyConfig>, username: string,
                          start: CalendarDate, end: CalendarDate): Result<seq<Row>, Error>
  {
    if |status| == 0 then Success([])
    else
      var here :- if InRange(status[0].date, start, end) then StatusRows(status[0], configs, username) else Success([]);
      var rest :- AttendanceRows(status[1..], configs, username, start, end);
      Success(here + rest)
  }

  /** The store query's condition on a manual record: the requested user,
      and a date string between the formatted bounds. */
  predicate Selected(p: Penalty, username: string, lo: string, hi: string) {
    p.username == username && LexLe(lo, p.date) && LexLe(p.date, hi)
  }

  /** The manual records the store query returns, in store order. */
  function SelectManual(penalties: seq<Penalty>, username: string, lo: string, hi: string): seq<Penalty> {
    Filter(penalties, (p: Penalty) => Selected(p, username, lo, hi))
  }

  /** The pass over the selected manual records, each priced by the point
      table entry labelled with the record's own `type`. */
  function ManualRows(records: seq<Penalty>, configs: seq<PenaltyConfig>, username: string): Result<seq<Row>, Error> {
    if |records| == 0 then Success([])
    else
      var p := records[0];
      match FindConfig(configs, p.typeLabel)
      case None => Failure(Unconfigured(p.typeLabel))
      case Some(val) =>
        var rest :- ManualRows(records[1..], configs, username);
        Success([Row(val.id, username, p.typeLabel, Reformat(p.date), p.description, val.value)] + rest)
  }

  /** The read endpoint over the three stores. */
  function Read(stores: Stores, username: string, start: CalendarDate, end: CalendarDate): Result<seq<Row>, Error> {
    match FindUser(stores.attendance, username)
    case None => Failure(NoAttendanceUser)
    case Some(user) =>
      var fromAttendance :- AttendanceRows(user.status, stores.configs, username, start, end);
      var penalty := SelectManual(stores.penalties, username, Format(start), Format(end));
      var fromManual :- ManualRows(penalty, stores.configs, username);
      Success(fromAttendance + fromManual)
  }

  // ------------------------------------------------- staged reference reading

  /** A row's date before it is rendered: an attendance entry's calendar
      day, or a manual record's stored text, which is reformatted. */
  datatype ChargeDate = FromCalendar(day: CalendarDate) | FromRecord(text: string)

  /** The `date` field a row shows. */
  function Render(d: ChargeDate): string {
    match d
    case FromCalendar(day) => Format(day)
    case FromRecord(text) => Reformat(text)
  }

  /** What a row says before its points are looked up. */
  datatype Charge = Charge(typeLabel: string, date: ChargeDate, description: string)

  /** Attendance states that cost points. */
  predicate Charged(state: string) {
    state == LATE_STATE || state == ABSENCE_STATE
  }

  function LabelOf(state: string): (l: string)
    requires Charged(state)
    ensures l == LATE_LABEL || l == ABSENCE_LABEL
  {
    if state == LATE_STATE then LATE_LABEL else ABSENCE_LABEL
  }

  /** An attendance entry produces a row. */
  predicate Counts(e: StatusEntry, start: CalendarDate, end: CalendarDate) {
    InRange(e.date, start, end) && Charged(e.state)
  }

  /** The attendance entries that produce rows, in status-list order. */
  function CountedEntries(status: seq<StatusEntry>, start: CalendarDate, end: CalendarDate): seq<StatusEntry> {
    Filter(status, (e: StatusEntry) => Counts(e, start, end))
  }

  function AttendanceCharge(e: StatusEntry): Charge
    requires Charged(e.state)
  {
    Charge(LabelOf(e.state), FromCalendar(e.date), LabelOf(e.state))
  }

  function ManualCharge(p: Penalty): Charge {
    Charge(p.typeLabel, FromRecord(p.date), p.description)
  }

  function AttendanceCharges(status: seq<StatusEntry>, start: CalendarDate, end: CalendarDate): seq<Charge> {
    var es := CountedEntries(status, start, end);
    seq(|es|, i requires 0 <= i < |es| => AttendanceCharge(es[i]))
  }

  function ManualCharges(ps: seq<Penalty>): seq<Charge> {
    seq(|ps|, i requires 0 <= i < |ps| => ManualCharge(ps[i]))
  }

  /** Everything a read must price: attendance charges, then manual ones. */
  function ReadCharges(user: AttendanceUser, penalties: seq<Penalty>, username: string,
                       start: CalendarDate, end: CalendarDate): seq<Charge>
  {
    AttendanceCharges(user.status, start, end)
      + ManualCharges(SelectManual(penalties, username, Format(start), Format(end)))
  }

  /** `row` is `c` for `username`, with `type_id` and `point` taken from the
      point-table entry the lookup by `c`'s label finds. */
  predicate PricedFrom(row: Row, c: Charge, configs: seq<PenaltyConfig>, username: string) {
    && row.username == username
    && row.typeLabel == c.typeLabel
    && row.date == Render(c.date)
    && row.description == c.description
    && FindConfig(configs, c.typeLabel) == Some(PenaltyConfig(row.typeId, c.typeLabel, row.point))
  }

  /** Charge `i` is the first one whose label has no point-table entry. */
  predicate FirstUnconfigured(charges: seq<Charge>, configs: seq<PenaltyConfig>, i: int) {
    && 0 <= i < |charges|
    && FindConfig(configs, charges[i].typeLabel).None?
    && forall j :: 0 <= j < i ==> FindConfig(configs, charges[j].typeLabel).Some?
  }

  /** Prices every charge in order, stopping at the first unpriceable one. */
  function PriceAll(charges: seq<Charge>, configs: seq<PenaltyConfig>, username: string): Result<seq<Row>, Error> {
    if |charges| == 0 then Success([])
    else
      var c := charges[0];
      match FindConfig(configs, c.typeLabel)
      case None => Failure(Unconfigured(c.typeLabel))
      case Some(val) =>
        var rest :- PriceAll(charges[1..], configs, username);
        Success([Row(val.id, username, c.typeLabel, Render(c.date), c.description, val.value)] + rest)
  }

  /** Pricing succeeds exactly when every label is found, then yields one
      row per charge, in order; otherwise it reports the first label that
      is not found. */
  lemma {:induction false} PriceAllSpec(charges: seq<Charge>, configs: seq<PenaltyConfig>, username: string)
    ensures PriceAll(charges, configs, username).Success?
        <==> forall i :: 0 <= i < |charges| ==> FindConfig(configs, charges[i].typeLabel).Some?
    ensures PriceAll(charges, configs, username).Success? ==>
      && |PriceAll(charges, configs, username).value| == |charges|
      && forall i :: 0 <= i < |charges| ==> PricedFrom(PriceAll(charges, configs, username).value[i], charges[i], configs, username)
    ensures PriceAll(charges, configs, username).Failure? ==>
      exists i :: FirstUnconfigured(charges, configs, i)
                  && PriceAll(charges, configs, username).error == Unconfigured(charges[i].typeLabel)
  {
    if |charges| > 0 {
      var c := charges[0];
      PriceAllSpec(charges[1..], configs, username);
      assert forall i :: 1 <= i < |charges| ==> charges[i] == charges[1..][i - 1];
      match FindConfig(configs, c.typeLabel)
      case None =>
        assert FirstUnconfigured(charges, configs, 0);
        assert PriceAll(charges, configs, username) == Failure(Unconfigured(charges[0].typeLabel));
      case Some(val) =>
        var rest := PriceAll(charges[1..], configs, username);
        if rest.Failure? {
          var i :| FirstUnconfigured(charges[1..], configs, i) && rest.error == Unconfigured(charges[1..][i].typeLabel);
          assert charges[1..][i] == charges[i + 1];
          assert FirstUnconfigured(charges, configs, i + 1);
          assert PriceAll(charges, configs, username) == Failure(rest.error);
          assert PriceAll(charges, configs, username).error == Unconfigured(charges[i + 1].typeLabel);
        } else {
          FindConfigFirstMatch(configs, c.typeLabel);
          assert val.key == c.typeLabel;
          var rows := PriceAll(charges, configs, username).value;
          assert rows == [Row(val.id, username, c.typeLabel, Render(c.date), c.description, val.value)] + rest.value;
          assert forall i :: 1 <= i < |charges| ==> rows[i] == rest.value[i - 1];
        }
    }
  }

  // ------------------------------------------------------------ agreement

  /** Pricing a concatenation prices the first part, then the second, and
      fails with the first part's error when it has one. */
  lemma {:induction false} PriceAllAppend(a: seq<Charge>, b: seq<Charge>, configs: seq<PenaltyConfig>, username: string)
    ensures PriceAll(a + b, configs, username) ==
      match PriceAll(a, configs, username)
      case Failure(e) => Failure(e)
      case Success(ra) =>
        match PriceAll(b, configs, username)
        case Failure(e) => Failure(e)
        case Success(rb) => Success(ra + rb)
  {
    if |a| == 0 {
      assert a + b == b;
      match PriceAll(b, configs, username)
      case Failure(e) =>
      case Success(rb) => assert [] + rb == rb;
    } else {
      assert (a + b)[0] == a[0];
      assert (a + b)[1..] == a[1..] + b;
      PriceAllAppend(a[1..], b, configs, username);
      match FindConfig(configs, a[0].typeLabel)
      case None =>
      case Some(val) =>
        var row := Row(val.id, username, a[0].typeLabel, Render(a[0].date), a[0].description, val.value);
        match PriceAll(a[1..], configs, username)
        case Failure(e) =>
        case Success(ra) =>
          match PriceAll(b, configs, username)
          case Failure(e) =>
          case Success(rb) =>
            assert [row] + (ra + rb) == ([row] + ra) + rb;
    }
  }

  lemma {:induction false} CountedEntriesCons(status: seq<StatusEntry>, start: CalendarDate, end: CalendarDate)
    requires |status| > 0
    ensures AttendanceCharges(status, start, end)
         == (if Counts(status[0], start, end) then [AttendanceCharge(status[0])] else [])
            + AttendanceCharges(status[1..], start, end)
  {
    var es, es' := CountedEntries(status, start, end), CountedEntries(status[1..], start, end);
    var whole, rest := AttendanceCharges(status, start, end), AttendanceCharges(status[1..], start, end);
    if Counts(status[0], start, end) {
      assert es == [status[0]] + es';
      var head := [AttendanceCharge(status[0])];
      assert |whole| == |head + rest|;
      forall i | 0 <= i < |whole| ensures whole[i] == (head + rest)[i] {
        if i > 0 {
          assert es[i] == es'[i - 1];
        }
      }
      assert whole == head + rest;
    } else {
      assert es == es';
      assert whole == rest;
      assert [] + rest == rest;
    }
  }

  /** The handler's pass over the status list prices exactly the charges of
      the in-range late and absent entries, in order. */
  lemma {:induction false} AttendanceRowsArePriced(status: seq<StatusEntry>, configs: seq<PenaltyConfig>, username: string,
                                                   start: CalendarDate, end: CalendarDate)
    ensures AttendanceRows(status, configs, username, start, end)
         == PriceAll(AttendanceCharges(status, start, end), configs, username)
  {
    if |status| > 0 {
      var e := status[0];
      var head: seq<Charge> := if Counts(e, start, end) then [AttendanceCharge(e)] else [];
      var tail := AttendanceCharges(status[1..], start, end);
      CountedEntriesCons(status, start, end);
      AttendanceRowsArePriced(status[1..], configs, username, start, end);
      PriceAllAppend(head, tail, configs, username);
      EntryRowsArePriced(e, configs, username, start, end);
    }
  }

  /** One status entry, in the handler and in the staged reading. */
  lemma {:induction false} EntryRowsArePriced(e: StatusEntry, configs: seq<PenaltyConfig>, username: string,
                                              start: CalendarDate, end: CalendarDate)
    ensures (if InRange(e.date, start, end) then StatusRows(e, configs, username) else Success([]))
         == PriceAll(if Counts(e, start, end) then [AttendanceCharge(e)] else [], configs, username)
  {
    if Counts(e, start, end) {
      var c := AttendanceCharge(e);
      assert [c][1..] == [];
      match FindConfig(configs, c.typeLabel)
      case None =>
      case Some(val) =>
        var row := Row(val.id, username, c.typeLabel, Render(c.date), c.description, val.value);
        assert [row] + [] == [row];
    }
  }

  /** The handler's pass over the selected manual records prices exactly
      their charges, in order. */
  lemma {:induction false} ManualRowsArePriced(records: seq<Penalty>, configs: seq<PenaltyConfig>, username: string)
    ensures ManualRows(records, configs, username) == PriceAll(ManualCharges(records), configs, username)
  {
    if |records| > 0 {
      var cs := ManualCharges(records);
      assert cs[0] == ManualCharge(records[0]);
      assert cs[1..] == ManualCharges(records[1..]);
      ManualRowsArePriced(records[1..], configs, username);
    }
  }

  /** The read endpoint is the staged reading: fail without an attendance
      document, otherwise price the attendance charges followed by the
      manual charges. */
  lemma {:induction false} ReadIsPriced(stores: Stores, username: string, start: CalendarDate, end: CalendarDate)
    ensures FindUser(stores.attendance, username).None? ==> Read(stores, username, start, end) == Failure(NoAttendanceUser)
    ensures FindUser(stores.attendance, username).Some? ==>
      Read(stores, username, start, end)
      == PriceAll(ReadCharges(FindUser(stores.attendance, username).value, stores.penalties, username, start, end),
                  stores.configs, username)
  {
    match FindUser(stores.attendance, username)
    case None =>
    case Some(user) =>
      var ps := SelectManual(stores.penalties, username, Format(start), Format(end));
      AttendanceRowsArePriced(user.status, stores.configs, username, start, end);
      ManualRowsArePriced(ps, stores.configs, username);
      PriceAllAppend(AttendanceCharges(user.status, start, end), ManualCharges(ps), stores.configs, username);
  }

  // ------------------------------------------------------------ properties

  lemma {:induction false} PricedRows(cs: seq<Charge>, rows: seq<Row>, configs: seq<PenaltyConfig>, username: string)
    requires PriceAll(cs, configs, username) == Success(rows)
    ensures |rows| == |cs|
    ensures forall i :: 0 <= i < |cs| ==> PricedFrom(rows[i], cs[i], configs, username)
  {
    PriceAllSpec(cs, configs, username);
  }

  lemma {:induction false} ReadChargesShape(user: AttendanceUser, penalties: seq<Penalty>, username: string,
                         start: CalendarDate, end: CalendarDate)
    ensures
      var cs := ReadCharges(user, penalties, username, start, end);
      var es := CountedEntries(user.status, start, end);
      var ps := SelectManual(penalties, username, Format(start), Format(end));
      && |cs| == |es| + |ps|
      && (forall i :: 0 <= i < |es| ==> cs[i] == AttendanceCharge(es[i]))
      && (forall j :: 0 <= j < |ps| ==> cs[|es| + j] == ManualCharge(ps[j]))
  {
    var es := CountedEntries(user.status, start, end);
    var ps := SelectManual(penalties, username, Format(start), Format(end));
    var a, m := AttendanceCharges(user.status, start, end), ManualCharges(ps);
    var cs := ReadCharges(user, penalties, username, start, end);
    assert cs == a + m;
    forall i | 0 <= i < |es| ensures cs[i] == AttendanceCharge(es[i]) {
      assert cs[i] == a[i];
    }
    forall j | 0 <= j < |ps| ensures cs[|es| + j] == ManualCharge(ps[j]) {
      assert cs[|es| + j] == m[j];
    }
  }

  /** Some label the read must price has no point-table entry: that of an
      in-range late or absent day, or the `type` of a selected manual record. */
  predicate MissingPrice(user: AttendanceUser, stores: Stores, username: string, start: CalendarDate, end: CalendarDate) {
    || (exists i :: 0 <= i < |user.status| && Counts(user.status[i], start, end)
                    && FindConfig(stores.configs, LabelOf(user.status[i].state)).None?)
    || (exists j :: 0 <= j < |stores.penalties| && Selected(stores.penalties[j], username, Format(start), Format(end))
                    && FindConfig(stores.configs, stores.penalties[j].typeLabel).None?)
  }

  /** Some charge of `cs` has no point-table entry for its label. */
  predicate Unpriced(cs: seq<Charge>, configs: seq<PenaltyConfig>) {
    exists i :: 0 <= i < |cs| && FindConfig(configs, cs[i].typeLabel).None?
  }

  lemma {:induction false} UnpricedConcat(a: seq<Charge>, m: seq<Charge>, configs: seq<PenaltyConfig>)
    ensures Unpriced(a + m, configs) <==> Unpriced(a, configs) || Unpriced(m, configs)
  {
    if i :| 0 <= i < |a + m| && FindConfig(configs, (a + m)[i].typeLabel).None? {
      if i < |a| {
        assert (a + m)[i] == a[i];
      } else {
        assert (a + m)[i] == m[i - |a|];
      }
    }
    if i :| 0 <= i < |a| && FindConfig(configs, a[i].typeLabel).None? {
      assert (a + m)[i] == a[i];
    }
    if j :| 0 <= j < |m| && FindConfig(configs, m[j].typeLabel).None? {
      assert (a + m)[|a| + j] == m[j];
    }
  }

  lemma {:induction false} UnpricedEntry(status: seq<StatusEntry>, configs: seq<PenaltyConfig>, start: CalendarDate, end: CalendarDate)
    ensures
      (exists i :: 0 <= i < |status| && Counts(status[i], start, end) && FindConfig(configs, LabelOf(status[i].state)).None?)
      <==> Unpriced(AttendanceCharges(status, start, end), configs)
  {
    var es := CountedEntries(status, start, end);
    var a := AttendanceCharges(status, start, end);
    FilterMembers(status, (e: StatusEntry) => Counts(e, start, end));
    if i :| 0 <= i < |status| && Counts(status[i], start, end) && FindConfig(configs, LabelOf(status[i].state)).None? {
      assert status[i] in es;
      var k :| 0 <= k < |es| && es[k] == status[i];
      assert a[k] == AttendanceCharge(es[k]);
    }
    if k :| 0 <= k < |a| && FindConfig(configs, a[k].typeLabel).None? {
      assert a[k] == AttendanceCharge(es[k]);
      assert es[k] in status;
    }
  }

  lemma {:induction false} UnpricedRecord(penalties: seq<Penalty>, configs: seq<PenaltyConfig>, username: string, lo: string, hi: string)
    ensures
      (exists j :: 0 <= j < |penalties| && Selected(penalties[j], username, lo, hi) && FindConfig(configs, penalties[j].typeLabel).None?)
      <==> Unpriced(ManualCharges(SelectManual(penalties, username, lo, hi)), configs)
  {
    var ps := SelectManual(penalties, username, lo, hi);
    var m := ManualCharges(ps);
    FilterMembers(penalties, (p: Penalty) => Selected(p, username, lo, hi));
    if j :| 0 <= j < |penalties| && Selected(penalties[j], username, lo, hi) && FindConfig(configs, penalties[j].typeLabel).None? {
      assert penalties[j] in ps;
      var k :| 0 <= k < |ps| && ps[k] == penalties[j];
      assert m[k] == ManualCharge(ps[k]);
    }
    if k :| 0 <= k < |m| && FindConfig(configs, m[k].typeLabel).None? {
      assert m[k] == ManualCharge(ps[k]);
      assert ps[k] in penalties;
    }
  }

  /** The missing prices are exactly the unpriceable charges. */
  lemma {:induction false} MissingPriceIsUnpricedCharge(user: AttendanceUser, stores: Stores, username: string,
                                     start: CalendarDate, end: CalendarDate)
    ensures MissingPrice(user, stores, username, start, end)
        <==> Unpriced(ReadCharges(user, stores.penalties, username, start, end), stores.configs)
  {
    var ps := SelectManual(stores.penalties, username, Format(start), Format(end));
    UnpricedConcat(AttendanceCharges(user.status, start, end), ManualCharges(ps), stores.configs);
    UnpricedEntry(user.status, stores.configs, start, end);
    UnpricedRecord(stores.penalties, stores.configs, username, Format(start), Format(end));
  }

  /** A read fails exactly when the attendance document is missing or a
      needed label is unpriced, and then returns no rows at all. */
  lemma {:induction false} ReadFailsExactly(stores: Stores, username: string, start: CalendarDate, end: CalendarDate)
    ensures FindUser(stores.attendance, username).None? ==> Read(stores, username, start, end) == Failure(NoAttendanceUser)
    ensures FindUser(stores.attendance, username).Some? ==>
      (Read(stores, username, start, end).Failure?
       <==> MissingPrice(FindUser(stores.attendance, username).value, stores, username, start, end))
    ensures FindUser(stores.attendance, username).Some? && Read(stores, username, start, end).Failure? ==>
      && Read(stores, username, start, end).error.Unconfigured?
      && FindConfig(stores.configs, Read(stores, username, start, end).error.key).None?
  {
    ReadIsPriced(stores, username, start, end);
    if FindUser(stores.attendance, username).Some? {
      var user := FindUser(stores.attendance, username).value;
      var cs := ReadCharges(user, stores.penalties, username, start, end);
      PriceAllSpec(cs, stores.configs, username);
      MissingPriceIsUnpricedCharge(user, stores, username, start, end);
    }
  }

  /** Pricing a concatenation gives the rows of the first part, then those
      of the second, each priced from its own charge. */
  lemma {:induction false} PricedConcat(a: seq<Charge>, m: seq<Charge>, rows: seq<Row>,
                                        configs: seq<PenaltyConfig>, username: string)
    requires PriceAll(a + m, configs, username) == Success(rows)
    ensures |rows| == |a| + |m|
    ensures forall i :: 0 <= i < |a| ==> PricedFrom(rows[i], a[i], configs, username)
    ensures forall j :: 0 <= j < |m| ==> PricedFrom(rows[|a| + j], m[j], configs, username)
  {
    PricedRows(a + m, rows, configs, username);
    forall i | 0 <= i < |a| ensures PricedFrom(rows[i], a[i], configs, username) {
      assert (a + m)[i] == a[i];
    }
    forall j | 0 <= j < |m| ensures PricedFrom(rows[|a| + j], m[j], configs, username) {
      assert (a + m)[|a| + j] == m[j];
    }
  }

  /** `rows` are one row per counted entry of `es`, in order, then one row
      per record of `ps`, in order, each priced from its own charge. */
  predicate LaidOut(rows: seq<Row>, es: seq<StatusEntry>, ps: seq<Penalty>, configs: seq<PenaltyConfig>, username: string)
    requires forall i :: 0 <= i < |es| ==> Charged(es[i].state)
  {
    && |rows| == |es| + |ps|
    && (forall i :: 0 <= i < |es| ==> PricedFrom(rows[i], AttendanceCharge(es[i]), configs, username))
    && (forall j :: 0 <= j < |ps| ==> PricedFrom(rows[|es| + j], ManualCharge(ps[j]), configs, username))
  }

  /** Pricing the attendance charges followed by the charges of the records
      `ps` lays the rows out entry by entry, then record by record. */
  lemma {:induction false} PricedLayout(status: seq<StatusEntry>, ps: seq<Penalty>, rows: seq<Row>,
                                        configs: seq<PenaltyConfig>, username: string,
                                        start: CalendarDate, end: CalendarDate)
    requires PriceAll(AttendanceCharges(status, start, end) + ManualCharges(ps), configs, username) == Success(rows)
    ensures LaidOut(rows, CountedEntries(status, start, end), ps, configs, username)
  {
    var es := CountedEntries(status, start, end);
    var a, m := AttendanceCharges(status, start, end), ManualCharges(ps);
    PricedConcat(a, m, rows, configs, username);
    forall i | 0 <= i < |es| ensures PricedFrom(rows[i], AttendanceCharge(es[i]), configs, username) {
      assert a[i] == AttendanceCharge(es[i]);
    }
    forall j | 0 <= j < |ps| ensures PricedFrom(rows[|es| + j], ManualCharge(ps[j]), configs, username) {
      assert m[j] == ManualCharge(ps[j]);
    }
  }

  /** A successful read returns one row per in-range late or absent day, in
      status-list order, then one row per selected manual record, in store
      order; each row carries its source's label, date and description and
      is priced by the first point-table entry with that label. */
  lemma {:induction false} ReadLayout(stores: Stores, username: string, start: CalendarDate, end: CalendarDate)
    requires Read(stores, username, start, end).Success?
    ensures FindUser(stores.attendance, username).Some?
    ensures LaidOut(Read(stores, username, start, end).value,
                    CountedEntries(FindUser(stores.attendance, username).value.status, start, end),
                    SelectManual(stores.penalties, username, Format(start), Format(end)),
                    stores.configs, username)
  {
    ReadIsPriced(stores, username, start, end);
    var user := FindUser(stores.attendance, username).value;
    var ps := SelectManual(stores.penalties, username, Format(start), Format(end));
    PricedLayout(user.status, ps, Read(stores, username, start, end).value, stores.configs, username, start, end);
  }

  /** `s` lies between the formatted bounds, as the store's string test
      decides it. */
  predicate Within(s: string, start: CalendarDate, end: CalendarDate) {
    LexLe(Format(start), s) && LexLe(s, Format(end))
  }

  /** The invalid-date text is never within a range. */
  lemma {:induction false} InvalidDateNotWithin(start: CalendarDate, end: CalendarDate)
    ensures !Within(INVALID_DATE, start, end)
  {
    InvalidDateAfterEveryDay(end);
  }

  /** Every charge a read prices renders to a date within the range, except
      a stored record's malformed date, which renders as the invalid-date
      text; when every stored date is well formed, all are within. */
  lemma {:induction false} ChargeDatesInRange(user: AttendanceUser, penalties: seq<Penalty>, username: string,
                           start: CalendarDate, end: CalendarDate)
    ensures forall c :: c in ReadCharges(user, penalties, username, start, end) ==>
      || Within(Render(c.date), start, end)
      || (c.date.FromRecord? && Parse(c.date.text).None? && Render(c.date) == INVALID_DATE)
    ensures (forall p :: p in penalties ==> Parse(p.date).Some?) ==>
      forall c :: c in ReadCharges(user, penalties, username, start, end) ==> Within(Render(c.date), start, end)
  {
    var es := CountedEntries(user.status, start, end);
    var ps := SelectManual(penalties, username, Format(start), Format(end));
    var cs := ReadCharges(user, penalties, username, start, end);
    ReadChargesShape(user, penalties, username, start, end);
    FilterMembers(penalties, (p: Penalty) => Selected(p, username, Format(start), Format(end)));
    forall c | c in cs
      ensures || Within(Render(c.date), start, end)
              || (c.date.FromRecord? && Parse(c.date.text).None? && Render(c.date) == INVALID_DATE)
      ensures (forall p :: p in penalties ==> Parse(p.date).Some?) ==> Within(Render(c.date), start, end)
    {
      var n :| 0 <= n < |cs| && cs[n] == c;
      if n < |es| {
        assert es[n] in es;
        FormatOrder(start, es[n].date);
        FormatOrder(es[n].date, end);
      } else {
        var p := ps[n - |es|];
        assert cs[|es| + (n - |es|)] == ManualCharge(p);
        assert p in ps;
        ReformatCases(p.date);
      }
    }
  }

  /** Every row of a successful read belongs to the requested user and has
      a date within the range, or the invalid-date text of a malformed stored
      date; when every stored date is well formed, every row is within. */
  lemma {:induction false} ReadRowsInRange(stores: Stores, username: string, start: CalendarDate, end: CalendarDate)
    requires Read(stores, username, start, end).Success?
    ensures forall row :: row in Read(stores, username, start, end).value ==>
      row.username == username && (Within(row.date, start, end) || row.date == INVALID_DATE)
    ensures (forall p :: p in stores.penalties ==> Parse(p.date).Some?) ==>
      forall row :: row in Read(stores, username, start, end).value ==> Within(row.date, start, end)
  {
    ReadIsPriced(stores, username, start, end);
    var user := FindUser(stores.attendance, username).value;
    var rows := Read(stores, username, start, end).value;
    var cs := ReadCharges(user, stores.penalties, username, start, end);
    PricedRows(cs, rows, stores.configs, username);
    ChargeDatesInRange(user, stores.penalties, username, start, end);
    forall row | row in rows
      ensures row.username == username && (Within(row.date, start, end) || row.date == INVALID_DATE)
      ensures (forall p :: p in stores.penalties ==> Parse(p.date).Some?) ==> Within(row.date, start, end)
    {
      var n :| 0 <= n < |rows| && rows[n] == row;
      assert cs[n] in cs;
    }
  }

  lemma {:induction false} FebruaryToMarchBounds(start: CalendarDate, end: CalendarDate)
    requires start == Date(2020, 2, 1) && end == Date(2020, 3, 31)
    ensures Format(start) == "2020-02-01" && Format(end) == "2020-03-31"
  {
    assert Pad2(20) == "20" && Pad2(2) == "02" && Pad2(1) == "01";
    assert Pad2(3) == "03" && Pad2(31) == "31";
  }

  lemma {:induction false} FebruaryThirtiethIsMalformed()
    ensures Parse("2020-02-30").None?
  {
    var s := "2020-02-30";
    assert s[..4] == "2020" && s[5..7] == "02" && s[8..] == "30";
    assert !Valid(Date(2020, 2, 30));
  }

  lemma FebruaryThirtiethBetweenBounds()
    ensures LexLe("2020-02-01", "2020-02-30") && LexLe("2020-02-30", "2020-03-31")
  {
  }

  /** A stored date naming no real day is still selected by the string
      test, and its row shows the invalid-date text, outside the range. */
  lemma {:induction false} MalformedDateSelected(p: Penalty, start: CalendarDate, end: CalendarDate)
    requires p.username == "admin" && p.date == "2020-02-30"
    requires start == Date(2020, 2, 1) && end == Date(2020, 3, 31)
    ensures Selected(p, "admin", Format(start), Format(end))
    ensures Render(ManualCharge(p).date) == INVALID_DATE
    ensures !Within(Render(ManualCharge(p).date), start, end)
  {
    FebruaryToMarchBounds(start, end);
    FebruaryThirtiethBetweenBounds();
    FebruaryThirtiethIsMalformed();
    InvalidDateNotWithin(start, end);
  }

  /** Every row of a successful read takes `type_id` and `point` from the
      first point-table entry whose key is the row's `type`. */
  lemma {:induction false} ReadPointsFromConfig(stores: Stores, username: string, start: CalendarDate, end: CalendarDate)
    requires Read(stores, username, start, end).Success?
    ensures forall row :: row in Read(stores, username, start, end).value ==>
      exists k :: FirstWithKey(stores.configs, row.typeLabel, k)
                  && row.typeId == stores.configs[k].id && row.point == stores.configs[k].value
  {
    ReadIsPriced(stores, username, start, end);
    var user := FindUser(stores.attendance, username).value;
    var rows := Read(stores, username, start, end).value;
    var cs := ReadCharges(user, stores.penalties, username, start, end);
    PricedRows(cs, rows, stores.configs, username);
    forall row | row in rows
      ensures exists k :: FirstWithKey(stores.configs, row.typeLabel, k)
                          && row.typeId == stores.configs[k].id && row.point == stores.configs[k].value
    {
      var n :| 0 <= n < |rows| && rows[n] == row;
      assert PricedFrom(row, cs[n], stores.configs, username);
      FindConfigFirstMatch(stores.configs, row.typeLabel);
    }
  }

  /** For a manual record whose date is a well-formed `YYYY-MM-DD` string,
      the store's string range test selects it exactly when its day lies in
      the calendar range the attendance entries are tested against. */
  lemma {:induction false} ManualSelectionIsCalendarRange(p: Penalty, username: string, start: CalendarDate, end: CalendarDate)
    requires Parse(p.date).Some?
    ensures Selected(p, username, Format(start), Format(end))
        <==> p.username == username && InRange(Parse(p.date).value, start, end)
  {
    StringRangeIsCalendarRange(start, end, p.date);
  }

  /** One late day in range, priced -1 under its label, gives one row. */
  lemma {:induction false} ScenarioLateDay()
    ensures
      var stores := Stores([], [PenaltyConfig("c1", LATE_LABEL, -1)],
                           [AttendanceUser("alice", [StatusEntry(Date(2020, 3, 19), LATE_STATE)])]);
      Read(stores, "alice", Date(2020, 3, 1), Date(2020, 3, 31))
      == Success([Row("c1", "alice", LATE_LABEL, "2020-03-19", LATE_LABEL, -1)])
  {
    var config := PenaltyConfig("c1", LATE_LABEL, -1);
    var entry := StatusEntry(Date(2020, 3, 19), LATE_STATE);
    var user := AttendanceUser("alice", [entry]);
    var stores := Stores([], [config], [user]);
    assert FindUser(stores.attendance, "alice") == Some(user);
    assert FindConfig(stores.configs, LATE_LABEL) == Some(config);
    assert Pad2(20) == "20" && Pad2(3) == "03" && Pad2(19) == "19";
    assert Format(entry.date) == "2020-03-19";
    assert InRange(entry.date, Date(2020, 3, 1), Date(2020, 3, 31));
    assert [entry][1..] == [];
    assert StatusRows(entry, stores.configs, "alice") == Success([Row("c1", "alice", LATE_LABEL, "2020-03-19", LATE_LABEL, -1)]);
    assert AttendanceRows([], stores.configs, "alice", Date(2020, 3, 1), Date(2020, 3, 31)) == Success([]);
    assert [Row("c1", "alice", LATE_LABEL, "2020-03-19", LATE_LABEL, -1)] + [] == [Row("c1", "alice", LATE_LABEL, "2020-03-19", LATE_LABEL, -1)];
    assert AttendanceRows([entry], stores.configs, "alice", Date(2020, 3, 1), Date(2020, 3, 31))
        == Success([Row("c1", "alice", LATE_LABEL, "2020-03-19", LATE_LABEL, -1)]);
  }
}
