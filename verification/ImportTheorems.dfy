/** What mapping makes of a row, and what the counters and error lines say about a file. */
module ImportTheorems {
  import opened Prelude
  import opened Text
  import opened LeadImport
  import opened LeadCommit
  import opened LeadTheorems
  import opened CommitTheorems

  // ----- one row -----

  /** Column `j` of the mapping is the last one for this field whose cell is not blank. */
  ghost predicate LastColumn(row: RawRow, mapping: Mapping, j: int, field: string) {
    && 0 <= j < |mapping| && mapping[j].1 == field && Cell(row, mapping[j].0) != ""
    && forall k :: j < k < |mapping| ==> mapping[k].1 == field ==> Cell(row, mapping[k].0) == ""
  }

  /** The field has the value of its last column that is not blank, and is absent without one. */
  ghost predicate FieldFrom(fields: Fields, row: RawRow, mapping: Mapping, field: string) {
    && (forall j :: LastColumn(row, mapping, j, field) ==> field in fields && fields[field] == Cell(row, mapping[j].0))
    && ((forall j :: !LastColumn(row, mapping, j, field)) ==> field !in fields)
  }

  lemma FieldPassedOver(fields: Fields, row: RawRow, mapping: Mapping, column: (string, string), field: string)
    requires FieldFrom(fields, row, mapping, field) && (column.1 != field || Cell(row, column.0) == "")
    ensures FieldFrom(fields, row, mapping + [column], field)
  {
    var more := mapping + [column];
    forall j ensures LastColumn(row, more, j, field) <==> LastColumn(row, mapping, j, field) {
      if LastColumn(row, mapping, j, field) {
        forall k | j < k < |more| && more[k].1 == field ensures Cell(row, more[k].0) == "" {}
      }
      if LastColumn(row, more, j, field) {
        forall k | j < k < |mapping| && mapping[k].1 == field
          ensures Cell(row, mapping[k].0) == ""
        {
          assert more[k] == mapping[k];
        }
      }
    }
  }

  lemma FieldTaken(fields: Fields, row: RawRow, mapping: Mapping, column: (string, string))
    requires Cell(row, column.0) != ""
    ensures FieldFrom(fields[column.1 := Cell(row, column.0)], row, mapping + [column], column.1)
  {
    assert LastColumn(row, mapping + [column], |mapping|, column.1);
    forall j | LastColumn(row, mapping + [column], j, column.1) ensures j == |mapping| {
      assert (mapping + [column])[|mapping|] == column;
    }
  }

  /** Each field a mapping names has the value of its last column that is not blank: system fields
      among the columns of the lead, all others among its custom fields. */
  lemma {:induction false} MappedExactly(row: RawRow, mapping: Mapping, field: string)
    ensures var (system, custom) := ApplyMapping(row, mapping);
            && FieldFrom(if field in SYSTEM_FIELDS then system else custom, row, mapping, field)
            && field !in if field in SYSTEM_FIELDS then custom else system
  {
    if mapping != [] {
      var n := |mapping| - 1;
      var front, column := mapping[..n], mapping[n];
      assert mapping == front + [column];
      MappedExactly(row, front, field);
      var (system, custom) := ApplyMapping(row, front);
      var fields := if field in SYSTEM_FIELDS then system else custom;
      if column.1 == field && Cell(row, column.0) != "" {
        FieldTaken(fields, row, front, column);
      } else {
        FieldPassedOver(fields, row, front, column, field);
      }
    }
  }

  /** A row is prepared exactly if its phone is one and its date of birth, if it has one, is a date of
      the calendar; the phone is judged first.  Preparing only normalizes the phone. */
  lemma PreparedExactly(row: RawRow, mapping: Mapping)
    ensures var (system, custom) := ApplyMapping(row, mapping);
            var phone := NormalizeUsPhone(if "phone" in system then system["phone"] else "");
            var dated := "date_of_birth" in system ==> ValidDate(Strip(system["date_of_birth"]));
            var p := PrepareRow(row, mapping);
            && (p.Ready? <==> phone.Some? && dated)
            && (p == Rejected("invalid_phone") <==> phone.None?)
            && (p == Rejected("invalid_date_of_birth") <==> phone.Some? && !dated)
            && (p.Ready? ==>
                  && "phone" in p.system && Some(p.system["phone"]) == phone && p.custom == custom
                  && p.system.Keys == system.Keys + {"phone"}
                  && forall k :: k in system && k != "phone" ==> p.system[k] == system[k])
  {
    assert "invalid_phone"[8] != "invalid_date_of_birth"[8];
  }

  // ----- the calendar -----

  function DaysBefore(year: int, month: int): int
    requires 1 <= month <= 13
  {
    if month == 1 then 0 else DaysBefore(year, month - 1) + DaysIn(year, month - 1)
  }

  lemma FirstQuarters(year: int)
    ensures DaysBefore(year, 7) == 31 + DaysIn(year, 2) + 31 + 30 + 31 + 30
  {
    assert DaysBefore(year, 2) == 31;
    assert DaysBefore(year, 3) == 31 + DaysIn(year, 2);
    assert DaysBefore(year, 4) == DaysBefore(year, 3) + 31;
    assert DaysBefore(year, 5) == DaysBefore(year, 4) + 30;
    assert DaysBefore(year, 6) == DaysBefore(year, 5) + 31;
  }

  lemma LastQuarters(year: int)
    ensures DaysBefore(year, 13) == DaysBefore(year, 7) + 31 + 31 + 30 + 31 + 30 + 31
  {
    assert DaysBefore(year, 8) == DaysBefore(year, 7) + 31;
    assert DaysBefore(year, 9) == DaysBefore(year, 8) + 31;
    assert DaysBefore(year, 10) == DaysBefore(year, 9) + 30;
    assert DaysBefore(year, 11) == DaysBefore(year, 10) + 31;
    assert DaysBefore(year, 12) == DaysBefore(year, 11) + 30;
  }

  /** The months make up years of 365 days, or 366 in every fourth year but three in four centuries,
      and only February changes. */
  lemma CalendarExactly(year: int, other: int, month: int)
    ensures DaysBefore(year, 13) ==
      if year % 400 == 0 || (year % 4 == 0 && year % 100 != 0) then 366 else 365
    ensures 1 <= month <= 12 && month != 2 ==> DaysIn(year, month) == DaysIn(other, month)
    ensures 1 <= month <= 12 ==> (DaysIn(year, month) == 31 <==> month in {1, 3, 5, 7, 8, 10, 12})
  {
    FirstQuarters(year);
    LastQuarters(year);
  }

  function Digit(n: int): char
    requires 0 <= n < 10
  {
    ('0' as int + n) as char
  }

  /** A date as it is written, four digits for the year and two each for month and day. */
  function Written(year: int, month: int, day: int): string
    requires 0 <= year < 10000 && 0 <= month < 100 && 0 <= day < 100
  {
    [Digit(year / 1000), Digit(year / 100 % 10), Digit(year / 10 % 10), Digit(year % 10), '-',
     Digit(month / 10), Digit(month % 10), '-', Digit(day / 10), Digit(day % 10)]
  }

  lemma TwoDigits(n: int)
    requires 0 <= n < 100
    ensures ValueOf([Digit(n / 10), Digit(n % 10)]) == n
  {
    var s := [Digit(n / 10), Digit(n % 10)];
    assert s[..1] == [Digit(n / 10)] && [Digit(n / 10)][..0] == "";
    assert ValueOf([Digit(n / 10)]) == 10 * ValueOf("") + n / 10;
  }

  lemma FourDigits(n: int)
    requires 0 <= n < 10000
    ensures ValueOf([Digit(n / 1000), Digit(n / 100 % 10), Digit(n / 10 % 10), Digit(n % 10)]) == n
  {
    var s := [Digit(n / 1000), Digit(n / 100 % 10), Digit(n / 10 % 10), Digit(n % 10)];
    TwoDigits(n / 100);
    assert s[..3][..2] == [Digit(n / 100 / 10), Digit(n / 100 % 10)];
    assert ValueOf(s[..3]) == n / 10;
  }

  /** A written date is accepted exactly if the year has such a month and the month such a day. */
  lemma DateExactly(year: int, month: int, day: int)
    requires 0 <= year < 10000 && 0 <= month < 100 && 0 <= day < 100
    ensures ValidDate(Written(year, month, day)) <==>
      1 <= year && 1 <= month <= 12 && 1 <= day <= DaysIn(year, month)
  {
    var s := Written(year, month, day);
    FourDigits(year);
    TwoDigits(month);
    TwoDigits(day);
    assert s[..4] == [Digit(year / 1000), Digit(year / 100 % 10), Digit(year / 10 % 10), Digit(year % 10)];
    assert s[5..7] == [Digit(month / 10), Digit(month % 10)] && s[8..] == [Digit(day / 10), Digit(day % 10)];
  }

  // ----- counters and error lines -----

  function HowMany(vs: seq<Verdict>, n: nat, kind: Verdict -> bool): nat
    requires n <= |vs|
  {
    if n == 0 then 0 else HowMany(vs, n - 1, kind) + if kind(vs[n - 1]) then 1 else 0
  }

  /** Each counter is the number of rows of its verdict; an updated row counts as valid and as a
      duplicate in the system. */
  lemma {:induction false} CountersExactly(vs: seq<Verdict>, n: nat)
    requires n <= |vs|
    ensures var c := CountsOf(vs, n);
            && c.total == |vs|
            && c.invalid == HowMany(vs, n, (v: Verdict) => v.Invalid?)
            && c.suppressed == HowMany(vs, n, (v: Verdict) => v.Suppressed?)
            && c.duplicatesFile == HowMany(vs, n, (v: Verdict) => v.DuplicateInFile?)
            && c.duplicatesSystem == HowMany(vs, n, (v: Verdict) => v.DuplicateInSystem? || v.UpdateExisting?)
            && c.valid == HowMany(vs, n, (v: Verdict) => v.Insert? || v.UpdateExisting?)
  {
    if n > 0 { CountersExactly(vs, n - 1); }
  }

  /** The reason a refused row is given, by its phone. */
  ghost predicate ReasonFor(ps: seq<Prepared>, s: Setting, i: nat, phone: string, reason: string) {
    Importable(ps, i, phone) ==>
      && (reason == "suppressed_dnc" <==> phone in s.suppressed)
      && (reason == "duplicate_in_system" <==> phone !in s.suppressed && phone in s.existing)
      && (reason == "duplicate_in_file" <==> phone !in s.suppressed && phone !in s.existing)
  }

  /** Each refused row has one error line with the number of its line in the file and the reason. */
  lemma RefusalsExactly(ps: seq<Prepared>, s: Setting, k: nat, phone: string)
    requires k < |Refused(Verdicts(ps, s), |ps|)|
    ensures var vs := Verdicts(ps, s);
            var i, errors := Refused(vs, |vs|)[k], ErrorsOf(vs, |vs|);
            && i < |ps| && |errors| == |Refused(vs, |vs|)| && errors[k].0 == i + 2
            && (ps[i].Rejected? ==> errors[k].1 == ps[i].reason)
            && ReasonFor(ps, s, i, phone, errors[k].1)
  {
    var vs := Verdicts(ps, s);
    ErrorsMeaning(vs, |vs|);
    VerdictExactly(ps, s, Refused(vs, |vs|)[k], phone);
    assert "suppressed_dnc"[0] == 's' && "duplicate_in_system"[13] == 's' && "duplicate_in_file"[13] == 'f';
  }

  // ----- mapping a file -----

  /** With a complete duplicate check a row is judged by the leads table and the register as they are:
      suppressed phones are refused, known ones updated if the options say so, new ones inserted at
      their first row. */
  lemma JudgedByTheTable(d: Desk, o: Options, i: nat, phone: string)
    requires LookupSees(o.mapping) && Importable(PreparedRows(d.job.rows, o.mapping), i, phone)
    ensures var ps := PreparedRows(d.job.rows, o.mapping);
            var v, known, suppressed :=
              VerdictOn(ps, SettingOf(d, o), i), phone in LeadPhones(d.leads), phone in d.register;
            && (v.Suppressed? <==> suppressed)
            && (v.UpdateExisting? <==> !suppressed && known && o.updateExisting)
            && (v.DuplicateInSystem? <==> !suppressed && known && !o.updateExisting)
            && (v.Insert? <==> !suppressed && !known && forall j :: j < i ==> !Importable(ps, j, phone))
  {
    var ps := PreparedRows(d.job.rows, o.mapping);
    VerdictExactly(ps, SettingOf(d, o), i, phone);
    LookupAgrees(d.job.rows[i], o.mapping, phone);
    assert phone in LookedUp(d.job.rows, o.mapping);
  }

  /** A mapped job has one error line per refused row, with its line and reason, one candidate for
      every other row, and its counters; leads and register are not touched. */
  lemma MappingReports(d: Desk, o: Options, campaignKnown: bool, k: nat, phone: string)
    requires SaveMapping(d, o, campaignKnown).1 == Done
    ensures var mapped := SaveMapping(d, o, campaignKnown).0;
            var ps, s := PreparedRows(d.job.rows, o.mapping), SettingOf(d, o);
            var refused := Refused(Verdicts(ps, s), |ps|);
            && mapped.leads == d.leads && mapped.register == d.register
            && mapped.job.mapping == o.mapping && mapped.job.status == Validating && mapped.job.rows == d.job.rows
            && |mapped.job.errors| == |refused| && |mapped.job.candidates| + |refused| == |d.job.rows|
            && mapped.job.counts.total == |d.job.rows| && mapped.job.counts.valid == |mapped.job.candidates|
            && (k < |refused| ==>
                  && refused[k] < |ps| && mapped.job.errors[k].0 == refused[k] + 2
                  && ReasonFor(ps, s, refused[k], phone, mapped.job.errors[k].1))
  {
    var ps, s := PreparedRows(d.job.rows, o.mapping), SettingOf(d, o);
    var vs := Verdicts(ps, s);
    ErrorsMeaning(vs, |vs|);
    Partition(vs, |vs|);
    CandidatesMeaning(ps, s, |ps|);
    CountersAddUp(vs, |vs|);
    if k < |Refused(vs, |vs|)| { RefusalsExactly(ps, s, k, phone); }
  }

  /** A mapping must name a phone column and a campaign that exists, and is refused from the commit on;
      a refusal changes nothing. */
  lemma MappingAnswers(d: Desk, o: Options, campaignKnown: bool)
    ensures var (after, reply) := SaveMapping(d, o, campaignKnown);
            var phones := exists i :: 0 <= i < |o.mapping| && o.mapping[i].1 == "phone";
            && (reply != Done ==> after == d)
            && (d.job.status in {Importing, Completed} ==> reply == InvalidState)
            && (d.job.status == AwaitingMapping ==>
                  && (reply == MappingInvalid <==> !phones)
                  && (reply == CampaignNotFound <==> phones && o.campaignId.Some? && !campaignKnown)
                  && (reply == Done <==> phones && (o.campaignId.Some? ==> campaignKnown)))
  {
  }

  /** A commit is carried out exactly on a job that is mapped and neither committed nor being so. */
  lemma CommitAnswers(d: Desk, keys: seq<(string, string)>)
    requires ReadyToCommit(d, keys)
    ensures var (after, reply) := Commit(d, keys);
            && (reply != Done ==> after == d)
            && (reply == Unchanged <==> d.job.status == Completed)
            && (reply == InvalidState <==> d.job.status in {AwaitingMapping, Importing})
            && (reply == NoMapping <==> d.job.status == Validating && d.job.mapping == [])
            && (reply == Done <==> d.job.status == Validating && d.job.mapping != [])
  {
  }

  /** The target of a source column, in a mapping that names each column once. */
  lemma {:induction false} TargetExactly(mapping: Mapping, i: nat)
    requires i < |mapping| && DistinctColumns(mapping)
    ensures TargetOf(mapping, mapping[i].0) == Some(mapping[i].1)
  {
    if i < |mapping| - 1 { TargetExactly(mapping[..|mapping| - 1], i); }
  }

  lemma {:induction false} NoTarget(mapping: Mapping, column: string)
    requires forall i :: 0 <= i < |mapping| ==> mapping[i].0 != column
    ensures TargetOf(mapping, column) == None
  {
    if mapping != [] { NoTarget(mapping[..|mapping| - 1], column); }
  }
}
