/** The write endpoint (`POST /write`) and the delete endpoint
    (`DELETE /:username`) over the manual penalty store. */
module PenaltyWrite {
  import opened Results
  import opened Seqs
  import opened Dates
  import opened PenaltyModel
  import opened PenaltyRead

  /** Saves a new record with exactly the five given fields. There is no
      duplicate check and no check that `typeId` names a point-table entry. */
  function Write(stores: Stores, typeId: string, typeLabel: string, username: string, date: string,
                 description: string): (r: Stores)
    ensures r.configs == stores.configs && r.attendance == stores.attendance
    ensures |r.penalties| == |stores.penalties| + 1
    ensures r.penalties[..|stores.penalties|] == stores.penalties
    ensures r.penalties[|stores.penalties|] == Penalty(typeId, typeLabel, username, date, description)
  {
    stores.(penalties := stores.penalties + [Penalty(typeId, typeLabel, username, date, description)])
  }

  /** Deletes the first record whose five fields all equal the arguments;
      deletes nothing, and still succeeds, when no record matches. */
  function Delete(stores: Stores, typeId: string, typeLabel: string, username: string, date: string,
                  description: string): (r: Stores)
    ensures r.configs == stores.configs && r.attendance == stores.attendance
    ensures
      var key, s := Penalty(typeId, typeLabel, username, date, description), stores.penalties;
      && (key !in s ==> r.penalties == s)
      && (key in s ==> exists i :: 0 <= i < |s| && s[i] == key && key !in s[..i] && r.penalties == s[..i] + s[i + 1..])
  {
    stores.(penalties := RemoveFirst(stores.penalties, Penalty(typeId, typeLabel, username, date, description)))
  }

  /** A delete removes one copy of the matching record, if there is one,
      and leaves the count of every other record as it was. */
  lemma {:induction false} DeleteRemovesOneCopy(stores: Stores, typeId: string, typeLabel: string, username: string,
                                                date: string, description: string)
    ensures
      var key := Penalty(typeId, typeLabel, username, date, description);
      var r := Delete(stores, typeId, typeLabel, username, date, description);
      && multiset(r.penalties) == multiset(stores.penalties) - multiset{key}
      && forall p :: p != key ==> multiset(r.penalties)[p] == multiset(stores.penalties)[p]
  {
  }

  /** Writing a record and then deleting the same five fields leaves the
      store equal to the original as a multiset; when the record was not
      already present it leaves the store exactly as it was. */
  lemma {:induction false} WriteThenDelete(stores: Stores, typeId: string, typeLabel: string, username: string, date: string,
                        description: string)
    ensures
      var after := Delete(Write(stores, typeId, typeLabel, username, date, description),
                          typeId, typeLabel, username, date, description);
      && after.configs == stores.configs && after.attendance == stores.attendance
      && multiset(after.penalties) == multiset(stores.penalties)
    ensures Penalty(typeId, typeLabel, username, date, description) !in stores.penalties ==>
      Delete(Write(stores, typeId, typeLabel, username, date, description),
             typeId, typeLabel, username, date, description) == stores
  {
    var key := Penalty(typeId, typeLabel, username, date, description);
    var s := stores.penalties;
    var written := Write(stores, typeId, typeLabel, username, date, description);
    assert written.penalties == s + [key];
    if key !in s {
      assert key !in written.penalties[..|s|];
    }
  }

  lemma {:induction false} ChargesAfterWrite(user: AttendanceUser, penalties: seq<Penalty>, p: Penalty, reader: string,
                          start: CalendarDate, end: CalendarDate)
    ensures ReadCharges(user, penalties + [p], reader, start, end)
         == ReadCharges(user, penalties, reader, start, end)
            + (if Selected(p, reader, Format(start), Format(end)) then [ManualCharge(p)] else [])
  {
    var lo, hi := Format(start), Format(end);
    FilterAppend(penalties, [p], (q: Penalty) => Selected(q, reader, lo, hi));
    assert [p][1..] == [];
    var ps := SelectManual(penalties, reader, lo, hi);
    if Selected(p, reader, lo, hi) {
      assert SelectManual(penalties + [p], reader, lo, hi) == ps + [p];
      assert ManualCharges(ps + [p]) == ManualCharges(ps) + [ManualCharge(p)];
    } else {
      assert SelectManual(penalties + [p], reader, lo, hi) == ps;
    }
  }

  lemma {:induction false} PriceOneMore(cs: seq<Charge>, c: Charge, configs: seq<PenaltyConfig>, username: string)
    requires PriceAll(cs, configs, username).Success? && FindConfig(configs, c.typeLabel).Some?
    ensures
      var val := FindConfig(configs, c.typeLabel).value;
      PriceAll(cs + [c], configs, username)
      == Success(PriceAll(cs, configs, username).value + [Row(val.id, username, c.typeLabel, Render(c.date), c.description, val.value)])
  {
    var val := FindConfig(configs, c.typeLabel).value;
    PriceAllAppend(cs, [c], configs, username);
    assert [c][1..] == [];
    assert PriceAll([c][1..], configs, username) == Success([]);
    var row := Row(val.id, username, c.typeLabel, Render(c.date), c.description, val.value);
    assert [row] + [] == [row];
    assert PriceAll([c], configs, username) == Success([row]);
  }

  /** A write changes a later read only by a record it selects: such a
      record, when its `type` is priced, adds one row at the end; any other
      record leaves the read as it was. */
  lemma {:induction false} ReadAfterWrite(stores: Stores, typeId: string, typeLabel: string, username: string, date: string,
                       description: string, reader: string, start: CalendarDate, end: CalendarDate)
    ensures
      var p := Penalty(typeId, typeLabel, username, date, description);
      !Selected(p, reader, Format(start), Format(end)) ==>
        Read(Write(stores, typeId, typeLabel, username, date, description), reader, start, end)
        == Read(stores, reader, start, end)
    ensures
      var p := Penalty(typeId, typeLabel, username, date, description);
      var before := Read(stores, reader, start, end);
      Selected(p, reader, Format(start), Format(end)) && before.Success? && FindConfig(stores.configs, typeLabel).Some? ==>
        var val := FindConfig(stores.configs, typeLabel).value;
        Read(Write(stores, typeId, typeLabel, username, date, description), reader, start, end)
        == Success(before.value + [Row(val.id, reader, typeLabel, Reformat(date), description, val.value)])
  {
    var p := Penalty(typeId, typeLabel, username, date, description);
    var written := Write(stores, typeId, typeLabel, username, date, description);
    assert written.penalties == stores.penalties + [p];
    ReadIsPriced(stores, reader, start, end);
    ReadIsPriced(written, reader, start, end);
    if FindUser(stores.attendance, reader).Some? {
      var user := FindUser(stores.attendance, reader).value;
      var cs := ReadCharges(user, stores.penalties, reader, start, end);
      ChargesAfterWrite(user, stores.penalties, p, reader, start, end);
      if Selected(p, reader, Format(start), Format(end)) {
        if PriceAll(cs, stores.configs, reader).Success? && FindConfig(stores.configs, typeLabel).Some? {
          PriceOneMore(cs, ManualCharge(p), stores.configs, reader);
        }
      } else {
        assert cs + [] == cs;
      }
    }
  }
}
