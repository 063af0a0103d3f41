# Penalty routes of EZSET, modelled in Dafny

EZSET's penalty API (`backend/src/api/v1/penalty.route.js`) has three
handlers over three stores: the manual penalty records (`Penalty`), the point
table (`PenaltyConfig`, one entry per label such as "지각" for late or "결석"
for absent), and the attendance documents (`AttendanceUser`, a user's list of
dated `late` / `absence` / other states).

- **read** (`GET /read/:username`) walks the user's attendance list. For each
  entry dated in the inclusive range it emits a row for a `late` day, priced
  by the point-table entry labelled "지각". It emits a row for an `absence`
  day, priced by the entry labelled "결석". After that it emits a row for
  each of the user's manual records whose date string lies between the
  formatted bounds. Each of those rows is priced by the entry whose key is
  the record's `type`. Every lookup takes the first matching entry.
- **write** (`POST /write`) stores one record with exactly the five request
  fields.
- **delete** (`DELETE /:username`) removes the first record that matches all
  five fields. When no record matches it removes nothing.

The model is pure functions over immutable stores:

- `results.dfy`: `Option` / `Result`.
- `seqs.dfy`: order-preserving selection, first-match search, first-match
  removal.
- `string_order.dfy`: code-point string order, as the store compares
  strings.
- `dates.dfy`: calendar dates, `YYYY-MM-DD` formatting and parsing, and the
  proof that the string order on formatted dates is the calendar order.
- `penalty_model.dfy`: the records and the point-table and attendance
  lookups.
- `penalty_read.dfy`: the read handler, written as the source's two passes.
  Next to it sits a staged reading of the same handler:
  1. select the charges (attendance charges first, then manual ones);
  2. price them all;
  3. fail at the first unpriceable one.

  Lemmas prove the two agree and then state the read's properties through
  the staged form.
- `penalty_write.dfy`: write, delete, and how they interact with each other
  and with read.

Write stores any date string, and the store's range test compares strings,
so a malformed stored date such as "2020-02-30" can be selected. Its row then
shows moment's "Invalid date" text, which lies outside the range. A stored
string moment reads in another form, such as "2020-019", can even render as
a real day outside the range. The read therefore keeps every row within the
range only when the stored dates are well formed.

A failed lookup makes the source dereference `null` (no attendance document)
or `undefined` (no point-table entry), so the request fails
and no rows are sent. The model turns this into an error result:
`NoAttendanceUser` when the attendance document is missing, and
`Unconfigured(label)` for the first label with no point-table entry, in the
handler's order.

## Model

| member | source | states |
|---|---|---|
| Seqs.IndexOfFirstSpec | backend/src/api/v1/penalty.route.js:62-64 | the first-match search behind `Array.find`, `findOne` and `findOneAndDelete` finds nothing exactly when no element matches; otherwise it finds a matching element with no match before it |
| Seqs.RemoveFirst | backend/src/api/v1/penalty.route.js:202-208 | an absent value leaves the list unchanged; otherwise exactly the first occurrence is cut out, the multiset loses one copy and the length drops by one |
| Seqs.FilterAppend | backend/src/api/v1/penalty.route.js:90-96 | selecting from a concatenation is the concatenation of the selections, so a newly written record is selected after every earlier one |
| PenaltyModel.FindConfigFirstMatch | backend/src/api/v1/penalty.route.js:99-101 | the point-table lookup fails exactly when no entry has the key; otherwise it returns the first entry with that key |
| PenaltyModel.FindUserFirstMatch | backend/src/api/v1/penalty.route.js:50-52 | the attendance lookup fails exactly when no document has the name; otherwise it returns the first document with that name |
| Dates.ParseFormat | backend/src/api/v1/penalty.route.js:69 | a day formatted as `YYYY-MM-DD` parses back to the same day |
| Dates.FormatParse | backend/src/api/v1/penalty.route.js:106 | a well-formed `YYYY-MM-DD` string is the formatting of the day it names, so reformatting a stored well-formed date changes nothing |
| Dates.FormatOrder | backend/src/api/v1/penalty.route.js:92-95 | one formatted day is string-less-or-equal to another exactly when it is calendar-less-or-equal |
| Dates.ReformatCases | backend/src/api/v1/penalty.route.js:106 | rendering a stored date keeps a well-formed `YYYY-MM-DD` string unchanged and turns any other string into the invalid-date text |
| Dates.InvalidDateAfterEveryDay | backend/src/api/v1/penalty.route.js:106 | the invalid-date text sorts after every formatted day |
| Dates.StringRangeIsCalendarRange | backend/src/api/v1/penalty.route.js:92-95 | for a well-formed date string, lying between the formatted bounds as strings is the same as lying between the bounds as days |
| PenaltyRead.PriceAllSpec | backend/src/api/v1/penalty.route.js:98-110 | pricing succeeds exactly when every label has an entry; on success there is one row per charge, each taking type_id and point from its label's entry; on failure the error names the first unpriceable label |
| PenaltyRead.AttendanceRowsArePriced | backend/src/api/v1/penalty.route.js:56-88 | the attendance pass prices exactly the in-range late and absent entries, in list order, labelled "지각" or "결석"; every other state and every out-of-range day yields nothing |
| PenaltyRead.ManualRowsArePriced | backend/src/api/v1/penalty.route.js:98-110 | the manual pass prices each selected record under its own `type`, with its stored date reformatted and its description kept, in store order |
| PenaltyRead.ReadIsPriced | backend/src/api/v1/penalty.route.js:48-113 | a read with no attendance document fails with `NoAttendanceUser`; otherwise it is the pricing of the attendance charges followed by the manual charges |
| PenaltyRead.MissingPriceIsUnpricedCharge | backend/src/api/v1/penalty.route.js:56-110 | some in-range late or absent day or some selected record lacks a point-table entry exactly when some charge of the read is unpriceable |
| PenaltyRead.ReadFailsExactly | backend/src/api/v1/penalty.route.js:50-103 | a read fails exactly when the attendance document is missing or a needed label is unpriced; such a failure names a label with no entry and returns no rows |
| PenaltyRead.PricedLayout | backend/src/api/v1/penalty.route.js:56-110 | pricing the attendance charges and then the record charges gives one row per counted entry followed by one row per record, each priced from its own source |
| PenaltyRead.ReadLayout | backend/src/api/v1/penalty.route.js:56-112 | a successful read has one row per in-range late or absent day, in order, then one row per selected record, in store order; each carries its source's label and description, the formatted attendance day or the reformatted stored date, and the first matching entry's type_id and point |
| PenaltyRead.InvalidDateNotWithin | backend/src/api/v1/penalty.route.js:92-95 | the invalid-date text never lies between two formatted bounds |
| PenaltyRead.ChargeDatesInRange | backend/src/api/v1/penalty.route.js:57-106 | every charge a read prices renders to a date between the formatted bounds, except a selected record whose stored date is malformed, which renders as the invalid-date text; when every stored date is well formed, all charges are within the bounds |
| PenaltyRead.ReadRowsInRange | backend/src/api/v1/penalty.route.js:56-106 | every row of a successful read belongs to the requested user; its date lies between the formatted bounds, inclusive, or is the invalid-date text; when every stored date is well formed, every row lies between the bounds |
| PenaltyRead.MalformedDateSelected | backend/src/api/v1/penalty.route.js:90-106 | a record dated "2020-02-30" passes the string test for 2020-02-01..2020-03-31, yet its row shows the invalid-date text, which lies outside that range |
| PenaltyRead.ReadPointsFromConfig | backend/src/api/v1/penalty.route.js:61-110 | every row's type_id and point are those of the first point-table entry whose key is the row's `type`, never values taken from the record |
| PenaltyRead.ManualSelectionIsCalendarRange | backend/src/api/v1/penalty.route.js:90-96 | a record with a well-formed date is selected exactly when it belongs to the user and its day lies in the range the attendance days are tested against |
| PenaltyRead.ScenarioLateDay | backend/src/api/v1/penalty.route.js:56-72 | one late day on 2020-03-19, with "지각" priced -1, reads over March 2020 as exactly one row dated "2020-03-19" carrying -1 |
| PenaltyWrite.Write | backend/src/api/v1/penalty.route.js:152-163 | a write appends exactly one record with the five given fields, keeps every earlier record in place and leaves the point table and attendance untouched |
| PenaltyWrite.Delete | backend/src/api/v1/penalty.route.js:201-210 | a delete with no matching record changes nothing; otherwise it removes only the first record equal on all five fields; the point table and attendance stay untouched |
| PenaltyWrite.DeleteRemovesOneCopy | backend/src/api/v1/penalty.route.js:202-208 | a delete takes away one copy of the matching record, if there is one, and no other record's count changes |
| PenaltyWrite.WriteThenDelete | backend/src/api/v1/penalty.route.js:152-210 | deleting what was just written restores the records as a multiset, and gives back the identical store if the record was not already there |
| PenaltyWrite.ChargesAfterWrite | backend/src/api/v1/penalty.route.js:90-96 | after a write, the read's charges are the old charges, plus the new record's charge at the end when the query selects it |
| PenaltyWrite.ReadAfterWrite | backend/src/api/v1/penalty.route.js:90-110 | a record the query does not select leaves a later read unchanged; a selected record with a priced `type` adds exactly one row, at the end, with its date reformatted and its points taken from the table |

## Left out

- Permissions, request validation and the Express plumbing (`perm`, `param`, `query`, `body`, `validateParams`, `asyncRoute`) are left out: they decide whether a handler runs, not what it computes.
- Mongoose persistence, `await` and `.select` projection are left out. Each handler is a pure function of store snapshots taken at the start, so concurrent writers are not modelled.
- HTTP status codes and JSON serialisation are left out. A successful read is its list of rows. A failed lookup is an error value, where the source throws a `TypeError` that the error middleware turns into a failure response.
- The bounds `start_date` / `end_date` are taken as calendar days: moment's parsing of arbitrary query strings, invalid dates and time zones are left out.
- Attendance timestamps are taken as whole calendar days, so an entry dated later on the end day is counted. The source compares full moments, which excludes such an entry.
- Dates.ReformatCases: as `Dates.Reformat` renders it, a manual row's `date` is the stored string when it is exactly a well-formed `YYYY-MM-DD` day, and moment's "Invalid date" text otherwise. Moment also accepts other forms, such as ISO 8601 strings with a time part or strings that fall back to the JavaScript `Date` parser, and renders them as real days. Those forms are not modelled: the model renders them as "Invalid date".
- PenaltyRead.ChargeDatesInRange: its "within the bounds or the invalid-date text" clause describes the model's rendering only. A selected stored string that moment reads in another form, such as the ISO ordinal date "2020-019", renders in the source as a real day ("2020-01-19"), which can lie outside the range; the model renders it as "Invalid date".
- PenaltyRead.ReadRowsInRange: its "within the bounds or the invalid-date text" clause likewise holds of the model's rendering only; in the source such a row can carry a real day outside the range, as for a stored "2020-019" read over 2020-01-20..2020-05-31.
- The Mongo `_id` of a penalty record is left out, so two records with equal fields are indistinguishable. This is why delete matches by value.
- Store failures (a failed save, a failed query) are left out: the stores are total here.
- Years outside 0–9999 are left out, because `YYYY-MM-DD` is not fixed-width beyond them.
