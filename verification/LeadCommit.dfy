/** The import job: saving the column mapping classifies the file, committing it changes the
    leads table. */
module LeadCommit {
  import opened Prelude
  import opened LeadImport

  /** The columns an import writes; an absent column is NULL. */
  datatype Contact = Contact(columns: Fields, customFields: Option<Fields>)

  datatype Lead = Lead(
    id: string,
    externalKey: string,
    phone: string,
    contact: Contact,
    campaignId: Option<string>,
    status: string,
    assignedTo: Option<string>,
    importJobId: Option<string>,
    attempts: nat)

  datatype JobStatus = AwaitingMapping | Validating | Importing | Completed

  datatype Job = Job(
    id: string,
    status: JobStatus,
    mapping: Mapping,
    rows: seq<RawRow>,
    candidates: seq<Candidate>,
    errors: seq<(nat, string)>,
    counts: Counts,
    campaignId: Option<string>,
    assignedTo: Option<string>,
    initialStatus: string,
    importedRows: nat)

  /** The leads table, the phones active on the suppression register, and one import job. */
  datatype Desk = Desk(leads: seq<Lead>, register: set<string>, job: Job)

  datatype Options = Options(
    mapping: Mapping,
    updateExisting: bool,
    campaignId: Option<string>,
    assignedTo: Option<string>,
    initialStatus: string)

  datatype Reply = Done | Unchanged | InvalidState | MappingInvalid | CampaignNotFound | NoMapping

  // ----- looking up what is already known -----

  function TargetOf(mapping: Mapping, column: string): Option<string> {
    if mapping == [] then None
    else if mapping[|mapping| - 1].0 == column then Some(mapping[|mapping| - 1].1)
    else TargetOf(mapping[..|mapping| - 1], column)
  }

  /** `_phone_from_row`: reads the cell named by the target of the source column called "phone". */
  function PhoneFromRow(row: RawRow, mapping: Mapping): Option<string> {
    var column := TargetOf(mapping, "phone");
    if column.None? || column.value == "" || column.value !in row then None
    else NormalizeUsPhone(row[column.value])
  }

  function LookedUp(rows: seq<RawRow>, mapping: Mapping): set<string> {
    set i | 0 <= i < |rows| && PhoneFromRow(rows[i], mapping).Some? :: PhoneFromRow(rows[i], mapping).value
  }

  function LeadPhones(leads: seq<Lead>): set<string> {
    set l | l in leads :: l.phone
  }

  function SettingOf(d: Desk, o: Options): Setting {
    var phones := LookedUp(d.job.rows, o.mapping);
    Setting(LeadPhones(d.leads) * phones, d.register * phones, o.updateExisting)
  }

  // ----- saving the mapping -----

  predicate MapsPhone(mapping: Mapping) {
    exists i :: 0 <= i < |mapping| && mapping[i].1 == "phone"
  }

  function SaveMapping(d: Desk, o: Options, campaignKnown: bool): (Desk, Reply) {
    if d.job.status != AwaitingMapping then (d, InvalidState)
    else if !MapsPhone(o.mapping) then (d, MappingInvalid)
    else if o.campaignId.Some? && !campaignKnown then (d, CampaignNotFound)
    else
      var s, n := SettingOf(d, o), |d.job.rows|;
      var ps := PreparedRows(d.job.rows, o.mapping);
      var vs := Verdicts(ps, s);
      var counts := CountsOf(vs, n);
      (d.(job := d.job.(
         status := Validating, mapping := o.mapping,
         candidates := CandidatesOf(ps, vs, n), errors := ErrorsOf(vs, n), counts := counts,
         campaignId := o.campaignId, assignedTo := o.assignedTo, initialStatus := o.initialStatus,
         importedRows := counts.valid)), Done)
  }

  // ----- committing -----

  function ContactOf(c: Candidate): Contact {
    Contact(map k | k in c.system && k != "phone" :: c.system[k], if c.custom == map[] then None else Some(c.custom))
  }

  predicate HasPhone(c: Candidate) {
    "phone" in c.system
  }

  function NewLead(c: Candidate, keys: (string, string), job: Job): Lead
    requires HasPhone(c)
  {
    Lead(keys.0, keys.1, c.system["phone"], ContactOf(c), job.campaignId, job.initialStatus, job.assignedTo,
         Some(job.id), 0)
  }

  /** The rows to insert from the first `n` candidates; candidate `i` takes the generated id and
      key `keys[i]`. */
  function InsertsOf(job: Job, keys: seq<(string, string)>, n: nat): seq<Lead>
    requires n <= |job.candidates| <= |keys| && forall c :: c in job.candidates ==> HasPhone(c)
  {
    if n == 0 then [] else
    var front, c := InsertsOf(job, keys, n - 1), job.candidates[n - 1];
    if c.isUpdate then front else front + [NewLead(c, keys[n - 1], job)]
  }

  function UpdatesOf(job: Job, n: nat): seq<(string, Contact)>
    requires n <= |job.candidates| && forall c :: c in job.candidates ==> HasPhone(c)
  {
    if n == 0 then [] else
    var front, c := UpdatesOf(job, n - 1), job.candidates[n - 1];
    assert HasPhone(c);
    if c.isUpdate then front + [(c.system["phone"], ContactOf(c))] else front
  }

  /** `UPDATE leads SET ... WHERE phone_normalized = ...`: every column of the contact is written. */
  function UpdateByPhone(leads: seq<Lead>, u: (string, Contact)): seq<Lead> {
    seq(|leads|, i requires 0 <= i < |leads| => if leads[i].phone == u.0 then leads[i].(contact := u.1) else leads[i])
  }

  function UpdateAll(leads: seq<Lead>, updates: seq<(string, Contact)>): seq<Lead> {
    if updates == [] then leads
    else UpdateByPhone(UpdateAll(leads, updates[..|updates| - 1]), updates[|updates| - 1])
  }

  ghost predicate ReadyToCommit(d: Desk, keys: seq<(string, string)>) {
    |d.job.candidates| <= |keys| && forall c :: c in d.job.candidates ==> HasPhone(c)
  }

  ghost function Commit(d: Desk, keys: seq<(string, string)>): (Desk, Reply)
    requires ReadyToCommit(d, keys)
  {
    if d.job.status == Completed then (d, Unchanged)
    else if d.job.status != Validating then (d, InvalidState)
    else if d.job.mapping == [] then (d, NoMapping)
    else
      var inserts := InsertsOf(d.job, keys, |d.job.candidates|);
      var updates := UpdatesOf(d.job, |d.job.candidates|);
      (d.(leads := UpdateAll(d.leads + inserts, updates),
          job := d.job.(status := Completed, importedRows := |inserts| + |updates|)), Done)
  }

  const CHUNK := 1000

  class ImportDesk {
    var leads: seq<Lead>
    var register: set<string>
    var job: Job

    constructor (leads: seq<Lead>, register: set<string>, job: Job)
      ensures State() == Desk(leads, register, job)
    {
      this.leads, this.register, this.job := leads, register, job;
    }

    ghost function State(): Desk
      reads this
    {
      Desk(leads, register, job)
    }

    method SaveColumnMapping(o: Options, campaignKnown: bool) returns (reply: Reply)
      modifies this`job
      ensures (State(), reply) == SaveMapping(old(State()), o, campaignKnown)
    {
      if job.status != AwaitingMapping { return InvalidState; }
      if !MapsPhone(o.mapping) { return MappingInvalid; }
      if o.campaignId.Some? && !campaignKnown { return CampaignNotFound; }
      var allPhones: set<string> := {};
      for i := 0 to |job.rows|
        invariant job == old(job)
        invariant allPhones == LookedUp(job.rows[..i], o.mapping)
      {
        assert job.rows[..i + 1] == job.rows[..i] + [job.rows[i]];
        var phone := PhoneFromRow(job.rows[i], o.mapping);
        assert phone.Some? ==> job.rows[..i + 1][i] == job.rows[i];
        assert forall k :: 0 <= k < i ==> job.rows[..i + 1][k] == job.rows[..i][k];
        if phone.Some? { allPhones := allPhones + {phone.value}; }
      }
      assert job.rows[..|job.rows|] == job.rows;
      var s := Setting(LeadPhones(leads) * allPhones, register * allPhones, o.updateExisting);
      var candidates, errors, counts := ClassifyRows(job.rows, o.mapping, s);
      job := job.(
        status := Validating, mapping := o.mapping, candidates := candidates, errors := errors, counts := counts,
        campaignId := o.campaignId, assignedTo := o.assignedTo, initialStatus := o.initialStatus,
        importedRows := counts.valid);
      reply := Done;
    }

    method CommitImport(keys: seq<(string, string)>) returns (reply: Reply)
      requires ReadyToCommit(State(), keys)
      modifies this`job, this`leads
      ensures (State(), reply) == Commit(old(State()), keys)
    {
      if job.status == Completed { return Unchanged; }
      if job.status != Validating { return InvalidState; }
      if job.mapping == [] { return NoMapping; }
      var inserts, updates := [], [];
      for i := 0 to |job.candidates|
        invariant job == old(job) && leads == old(leads)
        invariant inserts == InsertsOf(job, keys, i) && updates == UpdatesOf(job, i)
      {
        var c := job.candidates[i];
        assert HasPhone(c);
        if c.isUpdate {
          updates := updates + [(c.system["phone"], ContactOf(c))];
        } else {
          inserts := inserts + [NewLead(c, keys[i], job)];
        }
      }
      job := job.(status := Importing);
      InsertInChunks(inserts);
      BulkUpdateByPhone(updates);
      job := job.(importedRows := |inserts| + |updates|, status := Completed);
      reply := Done;
    }

    method InsertInChunks(inserts: seq<Lead>)
      modifies this`leads
      ensures leads == old(leads) + inserts
    {
      var i := 0;
      while i < |inserts|
        invariant i <= |inserts| || i < |inserts| + CHUNK
        invariant 0 <= i && leads == old(leads) + (if i <= |inserts| then inserts[..i] else inserts)
      {
        var end := if i + CHUNK <= |inserts| then i + CHUNK else |inserts|;
        assert inserts[..i] + inserts[i..end] == inserts[..end];
        leads := leads + inserts[i..end];
        i := i + CHUNK;
        assert end == |inserts| ==> inserts[..end] == inserts;
      }
      assert i == |inserts| ==> inserts[..i] == inserts;
    }

    method BulkUpdateByPhone(updates: seq<(string, Contact)>)
      modifies this`leads
      ensures leads == UpdateAll(old(leads), updates)
    {
      for k := 0 to |updates|
        invariant leads == UpdateAll(old(leads), updates[..k])
      {
        assert updates[..k + 1][..k] == updates[..k];
        leads := UpdateByPhone(leads, updates[k]);
      }
      assert updates[..|updates|] == updates;
    }
  }
}
