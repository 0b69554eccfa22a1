/** What mapping and committing a file does to the leads table, row by row of the file. */
module CommitTheorems {
  import opened Prelude
  import opened LeadImport
  import opened LeadCommit
  import opened LeadTheorems

  // ----- verdicts -----

  /** The row can be imported and has this phone. */
  ghost predicate Importable(ps: seq<Prepared>, i: int, phone: string) {
    0 <= i < |ps| && ps[i].Ready? && "phone" in ps[i].system && ps[i].system["phone"] == phone
  }

  /** A file row is refused as invalid or has one verdict by its phone: suppressed phones are refused,
      known ones updated if that was asked for and refused otherwise, new ones inserted once. */
  lemma VerdictExactly(ps: seq<Prepared>, s: Setting, i: nat, phone: string)
    requires i < |ps|
    ensures (forall p :: !Importable(ps, i, p)) ==> VerdictOn(ps, s, i).Invalid?
    ensures ps[i].Rejected? ==> VerdictOn(ps, s, i) == Invalid(ps[i].reason)
    ensures Importable(ps, i, phone) ==>
      var v := VerdictOn(ps, s, i);
      && (v.Suppressed? <==> phone in s.suppressed)
      && (v.UpdateExisting? <==> phone !in s.suppressed && phone in s.existing && s.updateExisting)
      && (v.DuplicateInSystem? <==> phone !in s.suppressed && phone in s.existing && !s.updateExisting)
      && (v.DuplicateInFile? <==>
            phone !in s.suppressed && phone !in s.existing && exists j :: j < i && Importable(ps, j, phone))
      && (v.Insert? <==>
            phone !in s.suppressed && phone !in s.existing && forall j :: j < i ==> !Importable(ps, j, phone))
  {
    if ps[i].Ready? && "phone" in ps[i].system { assert Importable(ps, i, ps[i].system["phone"]); }
    forall j | 0 <= j < |ps| ensures Importable(ps, j, phone) <==> PhoneOf(ps[j]) == Some(phone) {}
    if Importable(ps, i, phone) && OccursBefore(ps, i, phone) {
      var j :| 0 <= j < i && PhoneOf(ps[j]) == Some(phone);
      assert Importable(ps, j, phone);
    }
  }

  // ----- committing -----

  /** The contact a candidate gives: its columns but for the phone, and its custom fields if any. */
  ghost predicate ContactFrom(contact: Contact, c: Candidate) {
    && (forall k :: k in contact.columns <==> k in c.system && k != "phone")
    && (forall k :: k in contact.columns ==> contact.columns[k] == c.system[k])
    && (contact.customFields == None <==> c.custom == map[])
    && (c.custom != map[] ==> contact.customFields == Some(c.custom))
  }

  /** The lead made from a candidate, with its generated id and key and the settings of the job. */
  ghost predicate MadeFrom(l: Lead, c: Candidate, key: (string, string), job: Job) {
    && l.id == key.0 && l.externalKey == key.1 && CarriesPhone(c, l.phone) && ContactFrom(l.contact, c)
    && l.campaignId == job.campaignId && l.status == job.initialStatus && l.assignedTo == job.assignedTo
    && l.importJobId == Some(job.id) && l.attempts == 0
  }

  /** Candidate `j` is the last update of the phone. */
  ghost predicate LastUpdateAt(cs: seq<Candidate>, n: nat, j: int, phone: string) {
    && 0 <= j < n <= |cs| && cs[j].isUpdate && CarriesPhone(cs[j], phone)
    && forall k :: j < k < n ==> !(cs[k].isUpdate && CarriesPhone(cs[k], phone))
  }

  /** The positions of the candidates that are not updates, in order. */
  ghost predicate InsertPositions(cs: seq<Candidate>, n: nat, rows: seq<nat>) {
    && n <= |cs| && Increasing(rows)
    && forall i :: i in rows <==> 0 <= i < n && !cs[i].isUpdate
  }

  lemma {:induction false} InsertsMade(job: Job, keys: seq<(string, string)>, n: nat) returns (rows: seq<nat>)
    requires n <= |job.candidates| <= |keys| && forall c :: c in job.candidates ==> HasPhone(c)
    ensures InsertPositions(job.candidates, n, rows) && |InsertsOf(job, keys, n)| == |rows|
    ensures forall k :: 0 <= k < |rows| ==>
      rows[k] < n && MadeFrom(InsertsOf(job, keys, n)[k], job.candidates[rows[k]], keys[rows[k]], job)
    ensures |rows| + |UpdatesOf(job, n)| == n
  {
    rows := [];
    if n > 0 {
      rows := InsertsMade(job, keys, n - 1);
      var c := job.candidates[n - 1];
      assert HasPhone(c);
      if !c.isUpdate {
        MadeNow(c, keys[n - 1], job);
        PositionsOneMore(job.candidates, n - 1, rows);
        rows := rows + [n - 1];
      }
    }
  }

  lemma PositionsOneMore(cs: seq<Candidate>, n: nat, rows: seq<nat>)
    requires n < |cs| && !cs[n].isUpdate && InsertPositions(cs, n, rows)
    ensures InsertPositions(cs, n + 1, rows + [n])
  {
    IncreasingOneMore(rows, n);
  }

  lemma ContactIsFrom(c: Candidate)
    ensures ContactFrom(ContactOf(c), c)
  {
  }

  lemma MadeNow(c: Candidate, key: (string, string), job: Job)
    requires HasPhone(c)
    ensures MadeFrom(NewLead(c, key, job), c, key, job)
  {
  }

  /** After the first `n` candidates a lead of the phone that had `contact` has `last`. */
  ghost predicate LastIs(cs: seq<Candidate>, n: nat, phone: string, contact: Contact, last: Contact) {
    && n <= |cs|
    && (forall j :: LastUpdateAt(cs, n, j, phone) ==> ContactFrom(last, cs[j]))
    && ((forall j :: !LastUpdateAt(cs, n, j, phone)) ==> last == contact)
  }

  lemma SameLast(cs: seq<Candidate>, n: nat, phone: string, contact: Contact, last: Contact)
    requires n < |cs| && LastIs(cs, n, phone, contact, last) && !(cs[n].isUpdate && CarriesPhone(cs[n], phone))
    ensures LastIs(cs, n + 1, phone, contact, last)
  {
    forall j ensures LastUpdateAt(cs, n + 1, j, phone) <==> LastUpdateAt(cs, n, j, phone) {}
  }

  lemma NewLast(cs: seq<Candidate>, n: nat, phone: string, contact: Contact)
    requires n < |cs| && cs[n].isUpdate && CarriesPhone(cs[n], phone)
    ensures LastIs(cs, n + 1, phone, contact, ContactOf(cs[n]))
  {
    ContactIsFrom(cs[n]);
    assert LastUpdateAt(cs, n + 1, n, phone);
  }

  lemma {:induction false} UpdatesMade(job: Job, n: nat, phone: string, contact: Contact)
    requires n <= |job.candidates| && forall c :: c in job.candidates ==> HasPhone(c)
    ensures LastIs(job.candidates, n, phone, contact, LastOf(contact, ContactsFor(UpdatesOf(job, n), phone)))
  {
    if n > 0 {
      var cs, us := job.candidates, ContactsFor(UpdatesOf(job, n - 1), phone);
      UpdatesMade(job, n - 1, phone, contact);
      OneCandidateMore(job, n, phone);
      if cs[n - 1].isUpdate && CarriesPhone(cs[n - 1], phone) {
        NewLast(cs, n - 1, phone, contact);
      } else {
        SameLast(cs, n - 1, phone, contact, LastOf(contact, us));
      }
    }
  }

  lemma OneCandidateMore(job: Job, n: nat, phone: string)
    requires 0 < n <= |job.candidates| && forall c :: c in job.candidates ==> HasPhone(c)
    ensures var c := job.candidates[n - 1];
            ContactsFor(UpdatesOf(job, n), phone) ==
              ContactsFor(UpdatesOf(job, n - 1), phone)
              + if c.isUpdate && CarriesPhone(c, phone) then [ContactOf(c)] else []
  {
    var c, front := job.candidates[n - 1], UpdatesOf(job, n - 1);
    assert HasPhone(c);
    if c.isUpdate { assert (front + [(c.system["phone"], ContactOf(c))])[..|front|] == front; }
  }

  /** A lead of the table keeps everything but its contact, which is that of the last update of its
      phone; without an update it stays as it was. */
  ghost predicate Kept(before: Lead, after: Lead, cs: seq<Candidate>) {
    && after.(contact := before.contact) == before
    && LastIs(cs, |cs|, before.phone, before.contact, after.contact)
  }

  /** One new lead for each candidate that is not an update, in order, behind the leads there were. */
  ghost predicate CommittedAs(d: Desk, keys: seq<(string, string)>, after: Desk, rows: seq<nat>)
    requires |d.job.candidates| <= |keys|
  {
    var cs, n := d.job.candidates, |d.leads|;
    && InsertPositions(cs, |cs|, rows)
    && |after.leads| == n + |rows|
    && (forall i :: 0 <= i < n ==> Kept(d.leads[i], after.leads[i], cs))
    && (forall k :: 0 <= k < |rows| ==>
          rows[k] < |cs| && MadeFrom(after.leads[n + k], cs[rows[k]], keys[rows[k]], d.job))
    && after.register == d.register
    && after.job == d.job.(status := Completed, importedRows := |cs|)
  }

  /** A commit inserts one lead per candidate that is not an update, updates the leads whose phone an
      update carries, and counts every candidate as imported. */
  lemma CommitExactly(d: Desk, keys: seq<(string, string)>) returns (rows: seq<nat>)
    requires ReadyToCommit(d, keys) && d.job.status == Validating && d.job.mapping != []
      && InsertsApart(d.job.candidates)
    ensures Commit(d, keys).1 == Done && CommittedAs(d, keys, Commit(d, keys).0, rows)
  {
    var cs, n := d.job.candidates, |d.leads|;
    rows := InsertsMade(d.job, keys, |cs|);
    var inserts, updates := InsertsOf(d.job, keys, |cs|), UpdatesOf(d.job, |cs|);
    UpdatesPassInserts(d, keys);
    UpdateKeepsRest(d.leads, updates);
    forall i: nat | i < n ensures Kept(d.leads[i], UpdateAll(d.leads, updates)[i], cs) {
      LastContactWins(d.leads, updates, i);
      UpdatesMade(d.job, |cs|, d.leads[i].phone, d.leads[i].contact);
    }
  }

  lemma UpdatesPassInserts(d: Desk, keys: seq<(string, string)>)
    requires ReadyToCommit(d, keys) && InsertsApart(d.job.candidates)
    ensures var n := |d.job.candidates|;
            var inserts, updates := InsertsOf(d.job, keys, n), UpdatesOf(d.job, n);
            UpdateAll(d.leads + inserts, updates) == UpdateAll(d.leads, updates) + inserts
  {
    var n := |d.job.candidates|;
    var inserts, updates := InsertsOf(d.job, keys, n), UpdatesOf(d.job, n);
    InsertPhonesAre(d.job, keys, n);
    forall u, l | u in updates && l in inserts ensures u.0 != l.phone {
      var a :| 0 <= a < n && d.job.candidates[a].isUpdate && CarriesPhone(d.job.candidates[a], u.0);
      var b :| 0 <= b < n && !d.job.candidates[b].isUpdate && CarriesPhone(d.job.candidates[b], l.phone);
    }
    UpdatesMissInserts(d.leads, inserts, updates);
  }

  // ----- from the rows of a file to leads -----

  /** The rows with a verdict `Insert`, in file order. */
  ghost predicate InsertRows(vs: seq<Verdict>, rows: seq<nat>) {
    Increasing(rows) && forall i :: i in rows <==> 0 <= i < |vs| && vs[i].Insert?
  }

  lemma {:induction false} ComposeIncreasing(kept: seq<nat>, at: seq<nat>) returns (rows: seq<nat>)
    requires Increasing(kept) && Increasing(at) && forall k :: 0 <= k < |at| ==> at[k] < |kept|
    ensures |rows| == |at| && Increasing(rows) && forall k :: 0 <= k < |at| ==> rows[k] == kept[at[k]]
  {
    rows := seq(|at|, k requires 0 <= k < |at| => kept[at[k]]);
  }

  /** The candidates that are not updates come from the rows with a verdict `Insert`. */
  lemma InsertRowsOf(ps: seq<Prepared>, s: Setting, at: seq<nat>) returns (rows: seq<nat>)
    requires InsertPositions(CandidatesOf(ps, Verdicts(ps, s), |ps|), |CandidatesOf(ps, Verdicts(ps, s), |ps|)|, at)
    ensures InsertRows(Verdicts(ps, s), rows) && |rows| == |at|
    ensures forall k :: 0 <= k < |at| ==>
      var cs := CandidatesOf(ps, Verdicts(ps, s), |ps|);
      at[k] < |cs| && rows[k] < |ps| && ps[rows[k]].Ready?
      && cs[at[k]].system == ps[rows[k]].system && cs[at[k]].custom == ps[rows[k]].custom
  {
    var vs := Verdicts(ps, s);
    var cs, kept := CandidatesOf(ps, vs, |ps|), Surviving(vs, |ps|);
    CandidatesMeaning(ps, s, |ps|);
    InFileOrder(vs, |ps|);
    Partition(vs, |ps|);
    forall k | 0 <= k < |at| ensures at[k] < |kept| && vs[kept[at[k]]].Insert? { assert at[k] in at; }
    rows := ComposeIncreasing(kept, at);
    forall i | 0 <= i < |vs| && vs[i].Insert? ensures i in rows {
      assert i in kept;
      var j :| 0 <= j < |kept| && kept[j] == i;
      assert !cs[j].isUpdate && j in at;
      var k :| 0 <= k < |at| && at[k] == j;
      assert rows[k] == i;
    }
    forall i | i in rows ensures 0 <= i < |vs| && vs[i].Insert? {
      var k :| 0 <= k < |rows| && rows[k] == i;
    }
  }

  /** Lead `l` was made from this row of the file. */
  ghost predicate LeadOfRow(l: Lead, p: Prepared, job: Job) {
    && p.Ready? && "phone" in p.system && l.phone == p.system["phone"]
    && ContactFrom(l.contact, Candidate(false, p.system, p.custom))
    && l.campaignId == job.campaignId && l.status == job.initialStatus && l.assignedTo == job.assignedTo
    && l.importJobId == Some(job.id) && l.attempts == 0
  }

  /** End to end, whatever has become of the leads in between: mapping a file and committing it adds
      one lead for each row with a verdict `Insert`, in file order, made from that row with the
      options of the mapping, and reports the valid rows as imported. */
  lemma OneLeadPerInsertedRow(
      d: Desk, o: Options, campaignKnown: bool, keys: seq<(string, string)>, later: seq<Lead>)
    returns (rows: seq<nat>)
    requires SaveMapping(d, o, campaignKnown).1 == Done && |d.job.rows| <= |keys|
    ensures var ps := PreparedRows(d.job.rows, o.mapping);
            var mapped := SaveMapping(d, o, campaignKnown).0.(leads := later);
            && InsertRows(Verdicts(ps, SettingOf(d, o)), rows)
            && ReadyToCommit(mapped, keys)
            && var (after, reply) := Commit(mapped, keys);
            && reply == Done && |after.leads| == |later| + |rows|
            && (forall k :: 0 <= k < |rows| ==>
                 rows[k] < |ps| && LeadOfRow(after.leads[|later| + k], ps[rows[k]], after.job))
            && after.job.importedRows == after.job.counts.valid
            && after.job.campaignId == o.campaignId && after.job.initialStatus == o.initialStatus
            && after.job.assignedTo == o.assignedTo && after.job.id == d.job.id
  {
    var ps, s := PreparedRows(d.job.rows, o.mapping), SettingOf(d, o);
    var mapped := SaveMapping(d, o, campaignKnown).0.(leads := later);
    MappedIsReady(d, o, campaignKnown, keys);
    var at := CommitExactly(mapped, keys);
    rows := InsertRowsOf(ps, s, at);
    CandidatesMeaning(ps, s, |ps|);
    CountersAddUp(Verdicts(ps, s), |ps|);
    var after := Commit(mapped, keys).0;
    forall k | 0 <= k < |rows| ensures LeadOfRow(after.leads[|later| + k], ps[rows[k]], after.job) {
      assert MadeFrom(after.leads[|later| + k], mapped.job.candidates[at[k]], keys[at[k]], mapped.job);
    }
  }
}
