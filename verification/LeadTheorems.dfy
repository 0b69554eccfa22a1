/** What an import does to the leads table, and when its duplicate check is complete. */
module LeadTheorems {
  import opened Prelude
  import opened Text
  import opened LeadImport
  import opened LeadCommit

  // ----- normalization -----

  lemma {:induction false} StripLeftResult(s: string)
    ensures StripLeft(s) == "" || !IsBlank(StripLeft(s)[0])
  {
    if s != "" && IsBlank(s[0]) { StripLeftResult(s[1..]); }
  }

  lemma {:induction false} StripRightResult(s: string)
    ensures var u := StripRight(s);
            u <= s && (u == "" || !IsBlank(u[|u| - 1]))
  {
    if s != "" && IsBlank(s[|s| - 1]) { StripRightResult(s[..|s| - 1]); }
  }

  lemma StripTwice(s: string)
    ensures Strip(Strip(s)) == Strip(s)
  {
    var t := StripLeft(s);
    StripLeftResult(s);
    StripRightResult(t);
  }

  /** A normalized phone is eleven digits that start with 1, and normalizing it again changes
      nothing. */
  lemma NormalizedShape(raw: string)
    requires NormalizeUsPhone(raw).Some?
    ensures var p := NormalizeUsPhone(raw).value;
            && |p| == 11 && p[0] == '1' && (forall i :: 0 <= i < 11 ==> IsDigit(p[i]))
            && NormalizeUsPhone(p) == Some(p)
  {
    var p := NormalizeUsPhone(raw).value;
    var text := Strip(raw);
    var d := Digits(if text != "" && text[0] == '+' then text[1..] else text);
    forall i | 0 <= i < 11 ensures IsDigit(p[i]) {
      if |d| == 10 {
        if i > 0 { assert p[i] == d[i - 1] && d[i - 1] in d; }
      } else {
        assert p[i] in d;
      }
    }
    assert forall c :: c in p ==> IsDigit(c);
    assert StripLeft(p) == p && StripRight(p) == p;
  }

  // ----- the partition -----

  /** Every row either survives or is refused, once. */
  lemma {:induction false} Partition(vs: seq<Verdict>, n: nat)
    requires n <= |vs|
    ensures var kept, refused := Surviving(vs, n), Refused(vs, n);
            && (forall i :: i in kept <==> 0 <= i < n && Survives(vs[i]))
            && (forall i :: i in refused <==> 0 <= i < n && !Survives(vs[i]))
            && |kept| + |refused| == n
  {
    if n > 0 { Partition(vs, n - 1); }
  }

  /** Both lists are in file order. */
  lemma InFileOrder(vs: seq<Verdict>, n: nat)
    requires n <= |vs|
    ensures Increasing(Surviving(vs, n)) && Increasing(Refused(vs, n))
  {
    SurvivingInOrder(vs, n);
    RefusedInOrder(vs, n);
  }

  lemma {:induction false} SurvivingInOrder(vs: seq<Verdict>, n: nat)
    requires n <= |vs|
    ensures Increasing(Surviving(vs, n)) && forall i :: i in Surviving(vs, n) ==> i < n
  {
    if n > 0 {
      SurvivingInOrder(vs, n - 1);
      IncreasingOneMore(Surviving(vs, n - 1), n - 1);
    }
  }

  lemma {:induction false} RefusedInOrder(vs: seq<Verdict>, n: nat)
    requires n <= |vs|
    ensures Increasing(Refused(vs, n)) && forall i :: i in Refused(vs, n) ==> i < n
  {
    if n > 0 {
      RefusedInOrder(vs, n - 1);
      IncreasingOneMore(Refused(vs, n - 1), n - 1);
    }
  }

  lemma IncreasingOneMore(s: seq<nat>, last: nat)
    requires Increasing(s) && forall i :: i in s ==> i < last
    ensures Increasing(s + [last])
  {
    assert forall k :: 0 <= k < |s| ==> s[k] in s;
  }

  /** There is one candidate per surviving row, made from that row. */
  lemma {:induction false} CandidatesMeaning(ps: seq<Prepared>, s: Setting, n: nat)
    requires n <= |ps|
    ensures var vs := Verdicts(ps, s);
            var kept := Surviving(vs, n);
            && |CandidatesOf(ps, vs, n)| == |kept|
            && forall k :: 0 <= k < |kept| ==>
                 kept[k] < |ps| && Survives(vs[kept[k]]) && ps[kept[k]].Ready?
                 && CandidatesOf(ps, vs, n)[k] == CandidateFrom(ps[kept[k]], vs[kept[k]])
  {
    if n > 0 { CandidatesMeaning(ps, s, n - 1); }
  }

  /** There is one error line per refused row, naming its line and its reason. */
  lemma {:induction false} ErrorsMeaning(vs: seq<Verdict>, n: nat)
    requires n <= |vs|
    ensures var refused := Refused(vs, n);
            && |ErrorsOf(vs, n)| == |refused|
            && forall k :: 0 <= k < |refused| ==>
                 refused[k] < |vs| && !Survives(vs[refused[k]])
                 && ErrorsOf(vs, n)[k] == (refused[k] + 2, ReasonOf(vs[refused[k]]))
  {
    if n > 0 { ErrorsMeaning(vs, n - 1); }
  }

  function UpdatesAmong(vs: seq<Verdict>, n: nat): nat
    requires n <= |vs|
  {
    if n == 0 then 0 else UpdatesAmong(vs, n - 1) + if vs[n - 1].UpdateExisting? then 1 else 0
  }

  function CountedRows(c: Counts): nat {
    c.valid + c.invalid + c.duplicatesFile + c.duplicatesSystem + c.suppressed
  }

  lemma TallyCounts(c: Counts, v: Verdict)
    ensures Tally(c, v).total == c.total
    ensures Tally(c, v).valid == c.valid + if Survives(v) then 1 else 0
    ensures CountedRows(Tally(c, v)) == CountedRows(c) + if v.UpdateExisting? then 2 else 1
  {
  }

  /** The counters: candidates are valid, and apart from updates, which count as valid and as
      duplicates, every row is counted once. */
  lemma {:induction false} CountersAddUp(vs: seq<Verdict>, n: nat)
    requires n <= |vs|
    ensures var c := CountsOf(vs, n);
            && c.total == |vs|
            && c.valid == |Surviving(vs, n)|
            && CountedRows(c) == n + UpdatesAmong(vs, n)
            && |ErrorsOf(vs, n)| == n - c.valid
  {
    if n > 0 {
      CountersAddUp(vs, n - 1);
      TallyCounts(CountsOf(vs, n - 1), vs[n - 1]);
    }
  }

  // ----- what is inserted -----

  ghost predicate InsertsPhone(ps: seq<Prepared>, s: Setting, i: nat, phone: string) {
    i < |ps| && VerdictOn(ps, s, i).Insert? && PhoneOf(ps[i]) == Some(phone)
  }

  /** An inserted phone is neither known nor suppressed, and inserted by one row only. */
  lemma InsertedPhones(ps: seq<Prepared>, s: Setting, i: nat, j: nat, phone: string)
    requires InsertsPhone(ps, s, i, phone)
    ensures phone !in s.existing && phone !in s.suppressed
    ensures InsertsPhone(ps, s, j, phone) ==> i == j
  {
    assert !OccursBefore(ps, i, phone);
    assert InsertsPhone(ps, s, j, phone) ==> !OccursBefore(ps, j, phone);
  }

  /** The phone of a prepared row is normalized. */
  lemma PreparedPhone(row: RawRow, mapping: Mapping, phone: string)
    requires PhoneOf(PrepareRow(row, mapping)) == Some(phone)
    ensures NormalizeUsPhone(phone) == Some(phone) && |phone| == 11 && phone[0] == '1'
  {
    var (system, custom) := ApplyMapping(row, mapping);
    NormalizedShape(if "phone" in system then system["phone"] else "");
  }

  // ----- committing -----

  ghost function PhonesOf(leads: seq<Lead>): seq<string> {
    seq(|leads|, i requires 0 <= i < |leads| => leads[i].phone)
  }

  ghost predicate UniquePhones(leads: seq<Lead>) {
    Distinct(PhonesOf(leads))
  }

  lemma {:induction false} UpdateKeepsRest(leads: seq<Lead>, updates: seq<(string, Contact)>)
    ensures var after := UpdateAll(leads, updates);
            && |after| == |leads|
            && (forall i :: 0 <= i < |leads| ==> after[i].(contact := leads[i].contact) == leads[i])
            && (forall i :: 0 <= i < |leads| && (forall u :: u in updates ==> u.0 != leads[i].phone) ==>
                 after[i] == leads[i])
  {
    if updates != [] { UpdateKeepsRest(leads, updates[..|updates| - 1]); }
  }

  ghost predicate CarriesPhone(c: Candidate, phone: string) {
    HasPhone(c) && c.system["phone"] == phone
  }

  /** No inserted phone occurs on another candidate. */
  ghost predicate InsertsApart(cs: seq<Candidate>) {
    forall i, j, p :: 0 <= i < |cs| && 0 <= j < |cs| && CarriesPhone(cs[i], p) && CarriesPhone(cs[j], p) ==>
      cs[i].isUpdate || i == j
  }

  lemma {:induction false} InsertPhonesAre(job: Job, keys: seq<(string, string)>, n: nat)
    requires n <= |job.candidates| <= |keys| && forall c :: c in job.candidates ==> HasPhone(c)
    ensures forall l :: l in InsertsOf(job, keys, n) ==>
              exists k :: 0 <= k < n && !job.candidates[k].isUpdate && CarriesPhone(job.candidates[k], l.phone)
    ensures forall u :: u in UpdatesOf(job, n) ==>
              exists k :: 0 <= k < n && job.candidates[k].isUpdate && CarriesPhone(job.candidates[k], u.0)
  {
    if n > 0 {
      InsertPhonesAre(job, keys, n - 1);
      var c := job.candidates[n - 1];
      assert HasPhone(c);
    }
  }

  /** What a commit may do to the leads table. */
  ghost predicate Imported(before: seq<Lead>, inserts: seq<Lead>, updates: seq<(string, Contact)>, after: seq<Lead>) {
    && |after| == |before| + |inserts|
    && after[|before|..] == inserts
    && after[..|before|] == UpdateAll(before, updates)
    && (forall i :: 0 <= i < |before| ==> after[i].(contact := before[i].contact) == before[i])
    && (forall i :: 0 <= i < |before| && (forall u :: u in updates ==> u.0 != before[i].phone) ==>
         after[i] == before[i])
    && (UniquePhones(before) ==> UniquePhones(after))
  }

  /** Committing a job whose insert phones are new, adds exactly the inserts at the end, changes
      only the contact columns of leads whose phone is updated, touches no other lead, and keeps
      phones unique. */
  lemma CommitEffect(d: Desk, keys: seq<(string, string)>)
    requires ReadyToCommit(d, keys) && d.job.status == Validating && d.job.mapping != []
    requires forall c, p :: c in d.job.candidates && !c.isUpdate && CarriesPhone(c, p) ==> p !in LeadPhones(d.leads)
    requires InsertsApart(d.job.candidates)
    ensures var n := |d.job.candidates|;
            Imported(d.leads, InsertsOf(d.job, keys, n), UpdatesOf(d.job, n), Commit(d, keys).0.leads)
    ensures Commit(d, keys).1 == Done
  {
    var n := |d.job.candidates|;
    var inserts, updates := InsertsOf(d.job, keys, n), UpdatesOf(d.job, n);
    InsertPhonesAre(d.job, keys, n);
    forall u, l | u in updates && l in inserts ensures u.0 != l.phone {
      var a :| 0 <= a < n && d.job.candidates[a].isUpdate && CarriesPhone(d.job.candidates[a], u.0);
      var b :| 0 <= b < n && !d.job.candidates[b].isUpdate && CarriesPhone(d.job.candidates[b], l.phone);
    }
    UpdatesMissInserts(d.leads, inserts, updates);
    UpdateKeepsRest(d.leads, updates);
    assert forall i :: 0 <= i < |d.leads| ==>
      (UpdateAll(d.leads, updates) + inserts)[i] == UpdateAll(d.leads, updates)[i];
    if UniquePhones(d.leads) {
      InsertsDiffer(d.job, keys, n);
      forall l | l in inserts ensures l.phone !in LeadPhones(d.leads) {
        var b :| 0 <= b < n && !d.job.candidates[b].isUpdate && CarriesPhone(d.job.candidates[b], l.phone);
      }
      UniqueTogether(d.leads, UpdateAll(d.leads, updates), inserts);
    }
  }

  lemma {:induction false} UpdatesMissInserts(leads: seq<Lead>, inserts: seq<Lead>, updates: seq<(string, Contact)>)
    requires forall u, l :: u in updates && l in inserts ==> u.0 != l.phone
    ensures UpdateAll(leads + inserts, updates) == UpdateAll(leads, updates) + inserts
  {
    if updates != [] {
      var front, last := updates[..|updates| - 1], updates[|updates| - 1];
      UpdatesMissInserts(leads, inserts, front);
      assert last in updates;
      UpdateMissesInserts(UpdateAll(leads, front), inserts, last);
    }
  }

  lemma UpdateMissesInserts(leads: seq<Lead>, inserts: seq<Lead>, u: (string, Contact))
    requires forall l :: l in inserts ==> u.0 != l.phone
    ensures UpdateByPhone(leads + inserts, u) == UpdateByPhone(leads, u) + inserts
  {
    assert forall k :: 0 <= k < |inserts| ==> inserts[k] in inserts;
  }

  lemma {:induction false} InsertsDiffer(job: Job, keys: seq<(string, string)>, n: nat)
    requires n <= |job.candidates| <= |keys| && forall c :: c in job.candidates ==> HasPhone(c)
    requires InsertsApart(job.candidates)
    ensures UniquePhones(InsertsOf(job, keys, n))
  {
    if n > 0 {
      InsertsDiffer(job, keys, n - 1);
      InsertPhonesAre(job, keys, n - 1);
      var front, c := InsertsOf(job, keys, n - 1), job.candidates[n - 1];
      assert HasPhone(c);
      assert PhonesOf(InsertsOf(job, keys, n)) == PhonesOf(front) + if c.isUpdate then [] else [c.system["phone"]];
      forall k | 0 <= k < |front| && !c.isUpdate ensures front[k].phone != c.system["phone"] {
        assert front[k] in front;
        var b :| 0 <= b < n - 1 && !job.candidates[b].isUpdate && CarriesPhone(job.candidates[b], front[k].phone);
        assert !CarriesPhone(c, front[k].phone);
      }
    }
  }

  lemma UniqueTogether(leads: seq<Lead>, updated: seq<Lead>, inserts: seq<Lead>)
    requires UniquePhones(leads) && UniquePhones(inserts)
    requires |updated| == |leads| && forall i :: 0 <= i < |leads| ==> updated[i].phone == leads[i].phone
    requires forall l :: l in inserts ==> l.phone !in LeadPhones(leads)
    ensures UniquePhones(updated + inserts)
  {
    var all := PhonesOf(updated + inserts);
    forall i, j | 0 <= i < j < |all| ensures all[i] != all[j] {
      if j < |leads| {
        assert PhonesOf(leads)[i] != PhonesOf(leads)[j];
      } else if i < |leads| {
        assert inserts[j - |leads|] in inserts && leads[i] in leads;
      } else {
        assert PhonesOf(inserts)[i - |leads|] != PhonesOf(inserts)[j - |leads|];
      }
    }
  }

  /** A retried commit changes nothing. */
  lemma CommitTwice(d: Desk, keys: seq<(string, string)>, again: seq<(string, string)>)
    requires ReadyToCommit(d, keys) && Commit(d, keys).1 == Done && ReadyToCommit(Commit(d, keys).0, again)
    ensures Commit(Commit(d, keys).0, again) == (Commit(d, keys).0, Unchanged)
  {
  }

  // ----- what an update was promised to write -----

  /** The promised update: only what the row produced is written, column by column, and custom
      field by custom field. */
  function Patch(a: Contact, u: Contact): Contact {
    Contact(a.columns + u.columns,
            if u.customFields.None? then a.customFields
            else Some(a.customFields.GetOr(map[]) + u.customFields.value))
  }

  function PatchByPhone(leads: seq<Lead>, u: (string, Contact)): seq<Lead> {
    seq(|leads|, i requires 0 <= i < |leads| =>
      if leads[i].phone == u.0 then leads[i].(contact := Patch(leads[i].contact, u.1)) else leads[i])
  }

  function PatchAll(leads: seq<Lead>, updates: seq<(string, Contact)>): seq<Lead> {
    if updates == [] then leads
    else PatchByPhone(PatchAll(leads, updates[..|updates| - 1]), updates[|updates| - 1])
  }

  /** The updates of one phone, in order. */
  function ContactsFor(updates: seq<(string, Contact)>, phone: string): seq<Contact> {
    if updates == [] then [] else
    var front, last := ContactsFor(updates[..|updates| - 1], phone), updates[|updates| - 1];
    if last.0 == phone then front + [last.1] else front
  }

  function PatchChain(a: Contact, us: seq<Contact>): Contact {
    if us == [] then a else Patch(PatchChain(a, us[..|us| - 1]), us[|us| - 1])
  }

  function LastOf(a: Contact, us: seq<Contact>): Contact {
    if us == [] then a else us[|us| - 1]
  }

  /** `u` has every column and every custom field that `a` has. */
  ghost predicate Covers(u: Contact, a: Contact) {
    && a.columns.Keys <= u.columns.Keys
    && (a.customFields.Some? ==> u.customFields.Some? && a.customFields.value.Keys <= u.customFields.value.Keys)
  }

  /** The last update, if there is one, covers the lead and every earlier update. */
  ghost predicate LastCovers(a: Contact, us: seq<Contact>) {
    us != [] ==>
      && Covers(us[|us| - 1], a)
      && forall j :: 0 <= j < |us| - 1 ==> Covers(us[|us| - 1], us[j])
  }

  lemma MergeIsUpdate(a: Fields, u: Fields)
    ensures a + u == u <==> a.Keys <= u.Keys
  {
    if a + u == u { assert (a + u).Keys == a.Keys + u.Keys; }
  }

  lemma PatchIsUpdate(a: Contact, u: Contact)
    ensures Patch(a, u) == u <==> Covers(u, a)
  {
    MergeIsUpdate(a.columns, u.columns);
    if u.customFields.Some? { MergeIsUpdate(a.customFields.GetOr(map[]), u.customFields.value); }
  }

  lemma CoversPatch(a: Contact, u: Contact, v: Contact)
    ensures Covers(v, Patch(a, u)) <==> Covers(v, a) && Covers(v, u)
  {
    assert Patch(a, u).columns.Keys == a.columns.Keys + u.columns.Keys;
  }

  lemma {:induction false} CoversChain(a: Contact, us: seq<Contact>, v: Contact)
    ensures Covers(v, PatchChain(a, us)) <==> Covers(v, a) && forall j :: 0 <= j < |us| ==> Covers(v, us[j])
  {
    if us != [] {
      CoversChain(a, us[..|us| - 1], v);
      CoversPatch(PatchChain(a, us[..|us| - 1]), us[|us| - 1], v);
    }
  }

  lemma ChainIsLast(a: Contact, us: seq<Contact>)
    ensures PatchChain(a, us) == LastOf(a, us) <==> LastCovers(a, us)
  {
    if us != [] {
      var n := |us| - 1;
      PatchIsUpdate(PatchChain(a, us[..n]), us[n]);
      CoversChain(a, us[..n], us[n]);
    }
  }

  /** One lead after all updates as they are, and as they were promised. */
  lemma {:induction false} LastContactWins(leads: seq<Lead>, updates: seq<(string, Contact)>, i: nat)
    requires i < |leads|
    ensures |UpdateAll(leads, updates)| == |leads|
    ensures UpdateAll(leads, updates)[i] ==
      leads[i].(contact := LastOf(leads[i].contact, ContactsFor(updates, leads[i].phone)))
  {
    if updates != [] { LastContactWins(leads, updates[..|updates| - 1], i); }
  }

  lemma {:induction false} ContactsChain(leads: seq<Lead>, updates: seq<(string, Contact)>, i: nat)
    requires i < |leads|
    ensures |PatchAll(leads, updates)| == |leads|
    ensures PatchAll(leads, updates)[i] ==
      leads[i].(contact := PatchChain(leads[i].contact, ContactsFor(updates, leads[i].phone)))
  {
    if updates != [] {
      ContactsChain(leads, updates[..|updates| - 1], i);
      var us := ContactsFor(updates, leads[i].phone);
      if updates[|updates| - 1].0 == leads[i].phone {
        assert us[..|us| - 1] == ContactsFor(updates[..|updates| - 1], leads[i].phone);
      }
    }
  }

  ghost predicate Keeps(leads: seq<Lead>, updates: seq<(string, Contact)>, i: int) {
    0 <= i < |leads| ==> LastCovers(leads[i].contact, ContactsFor(updates, leads[i].phone))
  }

  lemma LeadAsPromised(leads: seq<Lead>, updates: seq<(string, Contact)>, i: nat)
    requires i < |leads| == |UpdateAll(leads, updates)| == |PatchAll(leads, updates)|
    ensures UpdateAll(leads, updates)[i] == PatchAll(leads, updates)[i] <==> Keeps(leads, updates, i)
  {
    LastContactWins(leads, updates, i);
    ContactsChain(leads, updates, i);
    ChainIsLast(leads[i].contact, ContactsFor(updates, leads[i].phone));
  }

  lemma {:induction false} SameSizes(leads: seq<Lead>, updates: seq<(string, Contact)>)
    ensures |UpdateAll(leads, updates)| == |leads| == |PatchAll(leads, updates)|
  {
    if updates != [] { SameSizes(leads, updates[..|updates| - 1]); }
  }

  lemma UpdatesAsPromised(leads: seq<Lead>, updates: seq<(string, Contact)>)
    ensures UpdateAll(leads, updates) == PatchAll(leads, updates) <==> forall i :: Keeps(leads, updates, i)
  {
    SameSizes(leads, updates);
    var a, b := UpdateAll(leads, updates), PatchAll(leads, updates);
    forall i: nat | i < |leads| ensures a[i] == b[i] <==> Keeps(leads, updates, i) {
      LeadAsPromised(leads, updates, i);
    }
  }

  /** A commit leaves the leads table as if each update had written only what its row produced,
      exactly when for every lead with an update the last one has every column and every custom
      field that the lead, or an earlier update of its phone, has. */
  lemma UpdateOverwrites(d: Desk, keys: seq<(string, string)>)
    requires ReadyToCommit(d, keys) && d.job.status == Validating && d.job.mapping != []
    ensures var n := |d.job.candidates|;
            var table, updates := d.leads + InsertsOf(d.job, keys, n), UpdatesOf(d.job, n);
            Commit(d, keys).0.leads == PatchAll(table, updates) <==> forall i :: Keeps(table, updates, i)
  {
    var n := |d.job.candidates|;
    UpdatesAsPromised(d.leads + InsertsOf(d.job, keys, n), UpdatesOf(d.job, n));
  }

  // ----- three files that lose something -----

  /** One lead, and a file that was uploaded and not mapped yet. */
  ghost function FileDesk(phone: string, contact: Contact, rows: seq<RawRow>): Desk {
    Desk([Lead("id", "key", phone, contact, None, "new", None, None, 0)], {},
         Job("job", AwaitingMapping, [], rows, [], [], Counts(0, 0, 0, 0, 0, 0), None, None, "new", 0))
  }

  /** Two columns mapped by their names, and known phones to be updated. */
  ghost function Updating(column: string): Options {
    Options([("phone", "phone"), (column, column)], true, None, None, "new")
  }

  /** Mapping and committing the file is accepted and leaves the one lead with this contact. */
  ghost predicate LeavesLead(
      phone: string, before: Contact, rows: seq<RawRow>, column: string, keys: seq<(string, string)>, after: Contact) {
    var d := FileDesk(phone, before, rows);
    var (mapped, reply) := SaveMapping(d, Updating(column), true);
    && reply == Done && ReadyToCommit(mapped, keys) && Commit(mapped, keys).1 == Done
    && Commit(mapped, keys).0.leads == [d.leads[0].(contact := after)]
  }

  /** A row of a number, with a value in the other column unless it is empty. */
  function FileRow(number: string, column: string, value: string): RawRow {
    if value == "" then map["phone" := number] else map["phone" := number, column := value]
  }

  function Produced(column: string, value: string): Contact {
    if value == "" then Contact(map[], None)
    else if column in SYSTEM_FIELDS then Contact(map[column := value], None)
    else Contact(map[], Some(map[column := value]))
  }

  ghost predicate TenDigits(number: string) {
    |number| == 10 && forall c :: c in number ==> IsDigit(c)
  }

  ghost predicate OtherColumn(column: string) {
    column != "phone" && column != "date_of_birth"
  }

  lemma MappedRow(row: RawRow, column: string)
    requires OtherColumn(column) && "phone" in row && Cell(row, "phone") != ""
    ensures var (system, custom) := ApplyMapping(row, Updating(column).mapping);
            && "phone" in system && system["phone"] == Cell(row, "phone") && "date_of_birth" !in system
            && Contact(system - {"phone"}, if custom == map[] then None else Some(custom)) ==
               Produced(column, Cell(row, column))
  {
    var mapping := Updating(column).mapping;
    assert mapping[..1] == [("phone", "phone")] && mapping[..1][..0] == [];
    assert "date_of_birth" != "phone";
    var phoneOnly: Fields := map["phone" := Cell(row, "phone")];
    assert ApplyMapping(row, mapping[..1]) == (phoneOnly, map[]);
    if Cell(row, column) != "" { assert column in map[column := Cell(row, column)]; }
  }

  lemma PreparedRow(number: string, column: string, value: string)
    requires TenDigits(number) && OtherColumn(column) && Strip(value) == value
    ensures var row, mapping := FileRow(number, column, value), Updating(column).mapping;
            && PhoneFromRow(row, mapping) == Some("1" + number)
            && PhoneOf(PrepareRow(row, mapping)) == Some("1" + number)
            && ContactOf(CandidateFrom(PrepareRow(row, mapping), UpdateExisting)) == Produced(column, value)
  {
    var row, mapping := FileRow(number, column, value), Updating(column).mapping;
    PlainNumber(number);
    MappedRow(row, column);
    assert mapping[..1] == [("phone", "phone")];
    assert TargetOf(mapping, "phone") == Some("phone");
    var (system, custom) := ApplyMapping(row, mapping);
    assert PrepareRow(row, mapping) == Ready(system["phone" := "1" + number], custom);
    assert (map k | k in system["phone" := "1" + number] && k != "phone" :: system[k]) == system - {"phone"};
  }

  function FileRows(number: string, column: string, values: seq<string>): seq<RawRow> {
    seq(|values|, k requires 0 <= k < |values| => FileRow(number, column, values[k]))
  }

  function AllProduced(column: string, values: seq<string>): seq<Contact> {
    seq(|values|, k requires 0 <= k < |values| => Produced(column, values[k]))
  }

  lemma KnownNumber(number: string, before: Contact, column: string, values: seq<string>, k: nat)
    requires TenDigits(number) && OtherColumn(column) && k < |values| && Strip(values[k]) == values[k]
    ensures var rows, o := FileRows(number, column, values), Updating(column);
            var ps, s := PreparedRows(rows, o.mapping), SettingOf(FileDesk("1" + number, before, rows), o);
            VerdictOn(ps, s, k).UpdateExisting?
  {
    var rows, o := FileRows(number, column, values), Updating(column);
    var d := FileDesk("1" + number, before, rows);
    PreparedRow(number, column, values[k]);
    assert d.leads[0] in d.leads;
    assert PhoneFromRow(rows[k], o.mapping).value in LookedUp(rows, o.mapping);
  }

  lemma {:induction false} AllAreUpdates(ps: seq<Prepared>, vs: seq<Verdict>, n: nat)
    requires n <= |ps| == |vs| && forall k :: 0 <= k < n ==> vs[k].UpdateExisting? && ps[k].Ready?
    ensures |CandidatesOf(ps, vs, n)| == n
    ensures forall k :: 0 <= k < n ==> CandidatesOf(ps, vs, n)[k] == CandidateFrom(ps[k], UpdateExisting)
  {
    if n > 0 { AllAreUpdates(ps, vs, n - 1); }
  }

  /** The job has one update of the phone for each contact. */
  ghost predicate UpdatesOnly(job: Job, phone: string, us: seq<Contact>) {
    |job.candidates| == |us| && forall k :: 0 <= k < |us| ==> UpdateAt(job, phone, us, k)
  }

  ghost predicate UpdateAt(job: Job, phone: string, us: seq<Contact>, k: nat) {
    && k < |us| == |job.candidates|
    && CarriesPhone(job.candidates[k], phone) && job.candidates[k].isUpdate && ContactOf(job.candidates[k]) == us[k]
  }

  lemma FileUpdates(number: string, before: Contact, column: string, values: seq<string>)
    requires TenDigits(number) && OtherColumn(column) && forall v :: v in values ==> Strip(v) == v
    ensures var d := FileDesk("1" + number, before, FileRows(number, column, values));
            && SaveMapping(d, Updating(column), true).1 == Done
            && UpdatesOnly(SaveMapping(d, Updating(column), true).0.job, "1" + number, AllProduced(column, values))
  {
    var rows, o := FileRows(number, column, values), Updating(column);
    var d := FileDesk("1" + number, before, rows);
    var ps := PreparedRows(rows, o.mapping);
    var vs := Verdicts(ps, SettingOf(d, o));
    assert o.mapping[0].1 == "phone";
    forall k | 0 <= k < |rows| ensures vs[k].UpdateExisting? && ps[k].Ready? {
      KnownNumber(number, before, column, values, k);
    }
    AllAreUpdates(ps, vs, |rows|);
    forall k: nat | k < |rows|
      ensures UpdateAt(SaveMapping(d, o, true).0.job, "1" + number, AllProduced(column, values), k)
    {
      PreparedRow(number, column, values[k]);
    }
  }

  lemma {:induction false} OnlyUpdates(job: Job, keys: seq<(string, string)>, phone: string, us: seq<Contact>, n: nat)
    requires n <= |us| <= |keys| && UpdatesOnly(job, phone, us) && forall c :: c in job.candidates ==> HasPhone(c)
    ensures InsertsOf(job, keys, n) == [] && ContactsFor(UpdatesOf(job, n), phone) == us[..n]
  {
    if n > 0 {
      OnlyUpdates(job, keys, phone, us, n - 1);
      assert UpdateAt(job, phone, us, n - 1);
      assert us[..n] == us[..n - 1] + [us[n - 1]];
      var front := UpdatesOf(job, n - 1);
      assert UpdatesOf(job, n)[..|front|] == front;
    }
  }

  /** The lead is left with what the last row of the file produced. */
  lemma LastRowIsLeft(number: string, before: Contact, column: string, values: seq<string>, keys: seq<(string, string)>)
    requires TenDigits(number) && OtherColumn(column) && forall v :: v in values ==> Strip(v) == v
    requires 0 < |values| == |keys|
    ensures LeavesLead("1" + number, before, FileRows(number, column, values), column, keys,
                       Produced(column, values[|values| - 1]))
  {
    FileUpdates(number, before, column, values);
    var d := FileDesk("1" + number, before, FileRows(number, column, values));
    CommitUpdates(SaveMapping(d, Updating(column), true).0, keys, AllProduced(column, values));
  }

  lemma CommitUpdates(d: Desk, keys: seq<(string, string)>, us: seq<Contact>)
    requires |d.leads| == 1 && UpdatesOnly(d.job, d.leads[0].phone, us) && 0 < |us| == |keys|
    requires d.job.status == Validating && d.job.mapping != []
    ensures ReadyToCommit(d, keys) && Commit(d, keys).1 == Done
    ensures Commit(d, keys).0.leads == [d.leads[0].(contact := us[|us| - 1])]
  {
    forall c | c in d.job.candidates ensures HasPhone(c) {
      var k: nat :| k < |us| && d.job.candidates[k] == c;
      assert UpdateAt(d.job, d.leads[0].phone, us, k);
    }
    OnlyUpdates(d.job, keys, d.leads[0].phone, us, |us|);
    assert d.leads + [] == d.leads && us[..|us|] == us;
    LastContactWins(d.leads, UpdatesOf(d.job, |us|), 0);
  }

  lemma PlainCell(s: string)
    requires s == "" || (!IsBlank(s[0]) && !IsBlank(s[|s| - 1]))
    ensures Strip(s) == s
  {
  }

  /** A lead loses its address and its custom fields to a file that has only first names. */
  lemma UpdateLosesColumn(number: string, keys: seq<(string, string)>)
    requires TenDigits(number) && |keys| == 1
    ensures LeavesLead("1" + number, Contact(map["email" := "ana@example.org"], Some(map["plan" := "gold"])),
                       [map["phone" := number, "first_name" := "Ana"]], "first_name", keys,
                       Contact(map["first_name" := "Ana"], None))
  {
    PlainCell("Ana");
    var before := Contact(map["email" := "ana@example.org"], Some(map["plan" := "gold"]));
    LastRowIsLeft(number, before, "first_name", ["Ana"], keys);
    assert FileRows(number, "first_name", ["Ana"]) == [map["phone" := number, "first_name" := "Ana"]];
  }

  /** A lead loses one custom field to a file that has another. */
  lemma UpdateLosesCustomField(number: string, keys: seq<(string, string)>)
    requires TenDigits(number) && |keys| == 1
    ensures LeavesLead("1" + number, Contact(map[], Some(map["plan" := "gold"])),
                       [map["phone" := number, "color" := "red"]], "color", keys,
                       Contact(map[], Some(map["color" := "red"])))
  {
    PlainCell("red");
    assert "color"[0] == 'c';
    LastRowIsLeft(number, Contact(map[], Some(map["plan" := "gold"])), "color", ["red"], keys);
    assert FileRows(number, "color", ["red"]) == [map["phone" := number, "color" := "red"]];
  }

  /** The address of one row is lost to a later row of the same number that has none. */
  lemma LaterRowLosesColumn(number: string, keys: seq<(string, string)>)
    requires TenDigits(number) && |keys| == 2
    ensures LeavesLead("1" + number, Contact(map[], None),
                       [map["phone" := number, "email" := "ana@example.org"], map["phone" := number]], "email", keys,
                       Contact(map[], None))
  {
    PlainCell("ana@example.org");
    assert "email"[0] == 'e';
    LastRowIsLeft(number, Contact(map[], None), "email", ["ana@example.org", ""], keys);
    assert FileRows(number, "email", ["ana@example.org", ""]) ==
      [map["phone" := number, "email" := "ana@example.org"], map["phone" := number]];
  }

  // ----- when the duplicate check is complete -----

  ghost predicate DistinctColumns(mapping: Mapping) {
    forall i, j :: 0 <= i < j < |mapping| ==> mapping[i].0 != mapping[j].0
  }

  /** The column the look-up reads is the one column mapped to "phone". */
  ghost predicate LookupSees(mapping: Mapping) {
    var column := TargetOf(mapping, "phone");
    && column.Some? && column.value != ""
    && forall i :: 0 <= i < |mapping| && mapping[i].1 == "phone" ==> mapping[i].0 == column.value
  }

  /** Whatever the file, the leads and the register, no row is inserted whose phone is already a
      lead or is suppressed. */
  ghost predicate NeverDuplicates(mapping: Mapping) {
    forall d: Desk, o: Options, i: nat, phone: string ::
      o.mapping == mapping && InsertsPhone(PreparedRows(d.job.rows, o.mapping), SettingOf(d, o), i, phone) ==>
        phone !in LeadPhones(d.leads) && phone !in d.register
  }

  lemma NormalizeStrips(raw: string)
    ensures NormalizeUsPhone(Strip(raw)) == NormalizeUsPhone(raw)
  {
    StripTwice(raw);
  }

  lemma {:induction false} PhoneCell(row: RawRow, mapping: Mapping, column: string)
    requires forall i :: 0 <= i < |mapping| && mapping[i].1 == "phone" ==> mapping[i].0 == column
    ensures var system := ApplyMapping(row, mapping).0;
            && ("phone" in system <==> MapsPhone(mapping) && Cell(row, column) != "")
            && ("phone" in system ==> system["phone"] == Cell(row, column))
  {
    if mapping != [] {
      var front := mapping[..|mapping| - 1];
      PhoneCell(row, front, column);
      MapsPhoneOneMore(mapping);
    }
  }

  lemma MapsPhoneOneMore(mapping: Mapping)
    requires mapping != []
    ensures MapsPhone(mapping) <==> MapsPhone(mapping[..|mapping| - 1]) || mapping[|mapping| - 1].1 == "phone"
  {
    var front := mapping[..|mapping| - 1];
    if i :| 0 <= i < |mapping| && mapping[i].1 == "phone" {
      assert i == |front| || front[i].1 == "phone";
    }
    if i :| 0 <= i < |front| && front[i].1 == "phone" { assert mapping[i].1 == "phone"; }
  }

  lemma LookupAgrees(row: RawRow, mapping: Mapping, phone: string)
    requires LookupSees(mapping) && PhoneOf(PrepareRow(row, mapping)) == Some(phone)
    ensures PhoneFromRow(row, mapping) == Some(phone)
  {
    var column := TargetOf(mapping, "phone").value;
    PhoneCell(row, mapping, column);
    if column in row { NormalizeStrips(row[column]); }
  }

  lemma SeenIsComplete(d: Desk, o: Options, i: nat, phone: string)
    requires LookupSees(o.mapping) && InsertsPhone(PreparedRows(d.job.rows, o.mapping), SettingOf(d, o), i, phone)
    ensures phone !in LeadPhones(d.leads) && phone !in d.register
  {
    LookupAgrees(d.job.rows[i], o.mapping, phone);
    assert phone in LookedUp(d.job.rows, o.mapping);
  }

  lemma {:induction false} OneCell(mapping: Mapping, n: nat, i: nat, column: string, value: string)
    requires n <= |mapping| && i < |mapping| && DistinctColumns(mapping) && mapping[i] == (column, "phone")
    requires Strip(value) == value && value != ""
    ensures ApplyMapping(map[column := value], mapping[..n]) == (if i < n then map["phone" := value] else map[], map[])
  {
    if n > 0 {
      OneCell(mapping, n - 1, i, column, value);
      assert mapping[..n][..n - 1] == mapping[..n - 1];
      if n - 1 != i { assert mapping[n - 1].0 != column; }
    }
  }

  lemma PlainNumber(number: string)
    requires |number| == 10 && forall c :: c in number ==> IsDigit(c)
    ensures Strip(number) == number && NormalizeUsPhone(number) == Some("1" + number)
  {
    assert number[0] in number && number[9] in number;
    assert StripLeft(number) == number && StripRight(number) == number;
    assert Digits(number) == number;
  }

  lemma OnlyPhone(row: RawRow, mapping: Mapping, number: string)
    requires ApplyMapping(row, mapping) == (map["phone" := number], map[]) && NormalizeUsPhone(number).Some?
    ensures PhoneOf(PrepareRow(row, mapping)) == NormalizeUsPhone(number)
  {
    assert "date_of_birth" != "phone";
  }

  /** A row whose phone stands in a mapped column that the look-up does not read. */
  lemma UnseenRow(mapping: Mapping, i: nat, number: string)
    requires DistinctColumns(mapping) && i < |mapping| && mapping[i].1 == "phone"
    requires TargetOf(mapping, "phone") != Some(mapping[i].0) || mapping[i].0 == ""
    requires Strip(number) == number && number != "" && NormalizeUsPhone(number).Some?
    ensures var row := map[mapping[i].0 := number];
            PhoneFromRow(row, mapping) == None && PhoneOf(PrepareRow(row, mapping)) == NormalizeUsPhone(number)
  {
    OneCell(mapping, |mapping|, i, mapping[i].0, number);
    assert mapping[..|mapping|] == mapping;
    OnlyPhone(map[mapping[i].0 := number], mapping, number);
  }

  /** A file of one such row, against a table that already has its phone. */
  lemma UnseenDuplicate(mapping: Mapping, row: RawRow, phone: string)
    requires PhoneFromRow(row, mapping) == None && PhoneOf(PrepareRow(row, mapping)) == Some(phone)
    ensures !NeverDuplicates(mapping)
  {
    var lead := Lead("id", "key", phone, Contact(map[], None), None, "new", None, None, 0);
    var job := Job("job", AwaitingMapping, [], [row], [], [], Counts(0, 0, 0, 0, 0, 0), None, None, "new", 0);
    var d, o := Desk([lead], {}, job), Options(mapping, false, None, None, "new");
    assert LookedUp([row], mapping) == {};
    assert InsertsPhone(PreparedRows(d.job.rows, mapping), SettingOf(d, o), 0, phone);
    assert lead in d.leads && phone in LeadPhones(d.leads);
  }

  /** The duplicate and suppression checks are complete exactly for the mappings whose one phone
      column is the column the look-up reads. */
  lemma DuplicateCheckExact(mapping: Mapping)
    requires MapsPhone(mapping) && DistinctColumns(mapping)
    ensures NeverDuplicates(mapping) <==> LookupSees(mapping)
  {
    if LookupSees(mapping) {
      forall d: Desk, o: Options, i: nat, phone: string
        | o.mapping == mapping && InsertsPhone(PreparedRows(d.job.rows, o.mapping), SettingOf(d, o), i, phone)
        ensures phone !in LeadPhones(d.leads) && phone !in d.register
      {
        SeenIsComplete(d, o, i, phone);
      }
    } else {
      var i: nat :| i < |mapping| && mapping[i].1 == "phone"
        && (TargetOf(mapping, "phone") != Some(mapping[i].0) || mapping[i].0 == "");
      var number := "2025550100";
      PlainNumber(number);
      UnseenRow(mapping, i, number);
      UnseenDuplicate(mapping, map[mapping[i].0 := number], "1" + number);
    }
  }

  // ----- from file to table -----

  /** A normalized phone that is neither a lead's nor suppressed. */
  ghost predicate FreshPhone(d: Desk, phone: string) {
    && NormalizeUsPhone(phone) == Some(phone) && |phone| == 11
    && phone !in LeadPhones(d.leads) && phone !in d.register
  }

  lemma MappedCandidates(d: Desk, o: Options)
    ensures var ps := PreparedRows(d.job.rows, o.mapping);
            var cs := CandidatesOf(ps, Verdicts(ps, SettingOf(d, o)), |ps|);
            && (forall c :: c in cs ==> HasPhone(c))
            && InsertsApart(cs)
            && (LookupSees(o.mapping) ==>
                  forall c, p :: c in cs && !c.isUpdate && CarriesPhone(c, p) ==> FreshPhone(d, p))
  {
    var ps, s := PreparedRows(d.job.rows, o.mapping), SettingOf(d, o);
    var vs := Verdicts(ps, s);
    var cs, kept := CandidatesOf(ps, vs, |ps|), Surviving(vs, |ps|);
    CandidatesMeaning(ps, s, |ps|);
    InFileOrder(vs, |ps|);
    CandidatesApart(ps, s, cs, kept);
    if LookupSees(o.mapping) {
      forall c, p | c in cs && !c.isUpdate && CarriesPhone(c, p) ensures FreshPhone(d, p) {
        var k :| 0 <= k < |cs| && cs[k] == c;
        SeenIsComplete(d, o, kept[k], p);
        PreparedPhone(d.job.rows[kept[k]], o.mapping, p);
      }
    }
  }

  lemma CandidatesApart(ps: seq<Prepared>, s: Setting, cs: seq<Candidate>, kept: seq<nat>)
    requires |cs| == |kept| && Increasing(kept)
    requires forall k :: 0 <= k < |kept| ==>
      kept[k] < |ps| && Survives(VerdictOn(ps, s, kept[k])) && ps[kept[k]].Ready? &&
      cs[k] == CandidateFrom(ps[kept[k]], VerdictOn(ps, s, kept[k]))
    ensures forall c :: c in cs ==> HasPhone(c)
    ensures InsertsApart(cs)
  {
    forall i, j, p | 0 <= i < |cs| && 0 <= j < |cs| && CarriesPhone(cs[i], p) && CarriesPhone(cs[j], p)
      && !cs[i].isUpdate
      ensures i == j
    {
      assert PhoneOf(ps[kept[j]]) == Some(p) && InsertsPhone(ps, s, kept[i], p);
      InsertedPhones(ps, s, kept[i], kept[j], p);
    }
  }

  lemma InsertsAreFresh(d: Desk, job: Job, keys: seq<(string, string)>, n: nat)
    requires n <= |job.candidates| <= |keys| && forall c :: c in job.candidates ==> HasPhone(c)
    requires forall c, p :: c in job.candidates && !c.isUpdate && CarriesPhone(c, p) ==> FreshPhone(d, p)
    ensures forall l :: l in InsertsOf(job, keys, n) ==> FreshPhone(d, l.phone)
  {
    InsertPhonesAre(job, keys, n);
    forall l | l in InsertsOf(job, keys, n) ensures FreshPhone(d, l.phone) {
      var k :| 0 <= k < n && !job.candidates[k].isUpdate && CarriesPhone(job.candidates[k], l.phone);
      assert job.candidates[k] in job.candidates;
    }
  }

  /** Mapping a file and committing it, with the leads unchanged in between: the commit has that
      effect, and every inserted lead has a normalized phone that was neither known nor suppressed. */
  lemma MappedThenCommitted(d: Desk, o: Options, campaignKnown: bool, keys: seq<(string, string)>)
    requires SaveMapping(d, o, campaignKnown).1 == Done && |d.job.rows| <= |keys| && LookupSees(o.mapping)
    ensures var mapped := SaveMapping(d, o, campaignKnown).0;
            && ReadyToCommit(mapped, keys)
            && Commit(mapped, keys).1 == Done
            && Imported(d.leads, InsertsOf(mapped.job, keys, |mapped.job.candidates|),
                        UpdatesOf(mapped.job, |mapped.job.candidates|), Commit(mapped, keys).0.leads)
            && (forall l :: l in InsertsOf(mapped.job, keys, |mapped.job.candidates|) ==> FreshPhone(d, l.phone))
  {
    var ps, s := PreparedRows(d.job.rows, o.mapping), SettingOf(d, o);
    MappedCandidates(d, o);
    CandidatesMeaning(ps, s, |ps|);
    Partition(Verdicts(ps, s), |ps|);
    var mapped := SaveMapping(d, o, campaignKnown).0;
    CommitEffect(mapped, keys);
    InsertsAreFresh(d, mapped.job, keys, |mapped.job.candidates|);
  }

  // ----- a table that changes between mapping and commit -----

  lemma UniqueApart(leads: seq<Lead>, inserts: seq<Lead>)
    requires UniquePhones(leads + inserts)
    ensures UniquePhones(leads) && forall l :: l in inserts ==> l.phone !in LeadPhones(leads)
  {
    var all := PhonesOf(leads + inserts);
    forall i, j | 0 <= i < j < |leads| ensures PhonesOf(leads)[i] != PhonesOf(leads)[j] {
      assert all[i] != all[j];
    }
    forall l | l in inserts ensures l.phone !in LeadPhones(leads) {
      var j :| 0 <= j < |inserts| && inserts[j] == l;
      forall m | m in leads ensures m.phone != l.phone {
        var i :| 0 <= i < |leads| && leads[i] == m;
        assert all[i] != all[|leads| + j];
      }
    }
  }

  lemma UniqueExactly(leads: seq<Lead>, inserts: seq<Lead>)
    requires UniquePhones(inserts)
    ensures UniquePhones(leads + inserts) <==>
      UniquePhones(leads) && forall l :: l in inserts ==> l.phone !in LeadPhones(leads)
  {
    if UniquePhones(leads + inserts) {
      UniqueApart(leads, inserts);
    } else if UniquePhones(leads) && forall l :: l in inserts ==> l.phone !in LeadPhones(leads) {
      UniqueTogether(leads, leads, inserts);
    }
  }

  /** A commit leaves phones unique exactly when they were and none of them is inserted. */
  lemma CommitKeepsUnique(d: Desk, keys: seq<(string, string)>)
    requires ReadyToCommit(d, keys) && d.job.status == Validating && d.job.mapping != []
      && InsertsApart(d.job.candidates)
    ensures UniquePhones(Commit(d, keys).0.leads) <==>
      UniquePhones(d.leads) &&
      forall l :: l in InsertsOf(d.job, keys, |d.job.candidates|) ==> l.phone !in LeadPhones(d.leads)
  {
    var n := |d.job.candidates|;
    var inserts, updates := InsertsOf(d.job, keys, n), UpdatesOf(d.job, n);
    InsertsDiffer(d.job, keys, n);
    UpdateKeepsRest(d.leads + inserts, updates);
    assert PhonesOf(UpdateAll(d.leads + inserts, updates)) == PhonesOf(d.leads + inserts);
    UniqueExactly(d.leads, inserts);
  }

  lemma MappedIsReady(d: Desk, o: Options, campaignKnown: bool, keys: seq<(string, string)>)
    requires SaveMapping(d, o, campaignKnown).1 == Done && |d.job.rows| <= |keys|
    ensures var mapped := SaveMapping(d, o, campaignKnown).0;
            && ReadyToCommit(mapped, keys) && mapped.job.status == Validating && mapped.job.mapping != []
            && InsertsApart(mapped.job.candidates)
  {
    var ps, s := PreparedRows(d.job.rows, o.mapping), SettingOf(d, o);
    MappedCandidates(d, o);
    CandidatesMeaning(ps, s, |ps|);
    Partition(Verdicts(ps, s), |ps|);
  }

  /** Whatever has become of the leads and the register since the file was mapped, the commit is
      carried out, and leaves phones unique exactly when they were unique just before and none of
      them is among those to be inserted. */
  lemma CommittedLater(
      d: Desk, o: Options, campaignKnown: bool, keys: seq<(string, string)>, later: seq<Lead>, register: set<string>)
    requires SaveMapping(d, o, campaignKnown).1 == Done && |d.job.rows| <= |keys|
    ensures var mapped := SaveMapping(d, o, campaignKnown).0.(leads := later, register := register);
            && ReadyToCommit(mapped, keys) && Commit(mapped, keys).1 == Done
            && (UniquePhones(Commit(mapped, keys).0.leads) <==>
                  UniquePhones(later) &&
                  forall l :: l in InsertsOf(mapped.job, keys, |mapped.job.candidates|) ==>
                    l.phone !in LeadPhones(later))
  {
    MappedIsReady(d, o, campaignKnown, keys);
    CommitKeepsUnique(SaveMapping(d, o, campaignKnown).0.(leads := later, register := register), keys);
  }

  /** With a complete duplicate check, leads added in between break the uniqueness of phones exactly
      when they do so by themselves or one of them has a phone the file inserts. */
  lemma AddedInBetween(
      d: Desk, o: Options, campaignKnown: bool, keys: seq<(string, string)>, added: seq<Lead>, register: set<string>)
    requires SaveMapping(d, o, campaignKnown).1 == Done && |d.job.rows| <= |keys| && LookupSees(o.mapping)
    ensures var mapped := SaveMapping(d, o, campaignKnown).0.(leads := d.leads + added, register := register);
            && ReadyToCommit(mapped, keys) && Commit(mapped, keys).1 == Done
            && (UniquePhones(Commit(mapped, keys).0.leads) <==>
                  UniquePhones(d.leads + added) &&
                  forall l :: l in InsertsOf(mapped.job, keys, |mapped.job.candidates|) ==>
                    l.phone !in LeadPhones(added))
  {
    MappedThenCommitted(d, o, campaignKnown, keys);
    CommittedLater(d, o, campaignKnown, keys, d.leads + added, register);
    var job := SaveMapping(d, o, campaignKnown).0.job;
    forall l | l in InsertsOf(job, keys, |job.candidates|)
      ensures l.phone in LeadPhones(d.leads + added) <==> l.phone in LeadPhones(added)
    {
      assert FreshPhone(d, l.phone);
      assert forall m :: m in d.leads + added <==> m in d.leads || m in added;
    }
  }
}
