/** The CSV import of leads: phone normalization, column mapping, classification of the rows of a
    file and the commit of the surviving rows. */
module LeadImport {
  import opened Prelude
  import opened Text

  // ----- phone numbers -----

  function Digits(s: string): (d: string)
    ensures forall c :: c in d ==> IsDigit(c)
    ensures (forall c :: c in s ==> IsDigit(c)) ==> d == s
  {
    if s == "" then "" else if IsDigit(s[0]) then [s[0]] + Digits(s[1..]) else Digits(s[1..])
  }

  function NormalizeUsPhone(raw: string): Option<string> {
    if raw == "" then None else
    var text := Strip(raw);
    var digits := Digits(if text != "" && text[0] == '+' then text[1..] else text);
    if |digits| == 10 then Some("1" + digits)
    else if |digits| == 11 && digits[0] == '1' then Some(digits)
    else None
  }

  // ----- rows and mappings -----

  /** One line of the file by column name. */
  type RawRow = map<string, string>

  /** Source column to target field, in the order given; a source column occurs once. */
  type Mapping = seq<(string, string)>

  type Fields = map<string, string>

  const SYSTEM_FIELDS := {"phone", "first_name", "last_name", "alt_phone", "email", "state", "zip_code",
                          "date_of_birth", "source", "source_batch_id"}

  function Cell(row: RawRow, column: string): string {
    if column in row then Strip(row[column]) else ""
  }

  function ApplyMapping(row: RawRow, mapping: Mapping): (Fields, Fields) {
    if mapping == [] then (map[], map[]) else
    var (system, custom) := ApplyMapping(row, mapping[..|mapping| - 1]);
    var (column, field) := mapping[|mapping| - 1];
    var value := Cell(row, column);
    if value == "" then (system, custom)
    else if field in SYSTEM_FIELDS then (system[field := value], custom)
    else (system, custom[field := value])
  }

  function DaysIn(year: int, month: int): int {
    if month in {4, 6, 9, 11} then 30
    else if month != 2 then 31
    else if year % 4 == 0 && (year % 100 != 0 || year % 400 == 0) then 29 else 28
  }

  /** `YYYY-MM-DD` that names a day of the calendar. */
  predicate ValidDate(s: string) {
    && |s| == 10 && s[4] == '-' && s[7] == '-'
    && (forall i :: 0 <= i < 10 && i != 4 && i != 7 ==> IsDigit(s[i]))
    && var year, month, day := ValueOf(s[..4]), ValueOf(s[5..7]), ValueOf(s[8..]);
    1 <= year && 1 <= month <= 12 && 1 <= day <= DaysIn(year, month)
  }

  datatype Prepared = Ready(system: Fields, custom: Fields) | Rejected(reason: string)

  function PrepareRow(row: RawRow, mapping: Mapping): (p: Prepared)
    ensures p.Ready? ==> "phone" in p.system
  {
    var (system, custom) := ApplyMapping(row, mapping);
    var phone := NormalizeUsPhone(if "phone" in system then system["phone"] else "");
    if phone.None? then Rejected("invalid_phone")
    else if "date_of_birth" in system && !ValidDate(Strip(system["date_of_birth"])) then
      Rejected("invalid_date_of_birth")
    else Ready(system["phone" := phone.value], custom)
  }

  method MapRow(row: RawRow, mapping: Mapping) returns (system: Fields, custom: Fields)
    ensures (system, custom) == ApplyMapping(row, mapping)
  {
    system, custom := map[], map[];
    for i := 0 to |mapping|
      invariant (system, custom) == ApplyMapping(row, mapping[..i])
    {
      assert mapping[..i + 1][..i] == mapping[..i];
      var (column, field) := mapping[i];
      var value := Cell(row, column);
      if value == "" { continue; }
      if field in SYSTEM_FIELDS { system := system[field := value]; } else { custom := custom[field := value]; }
    }
    assert mapping[..|mapping|] == mapping;
  }

  method Prepare(row: RawRow, mapping: Mapping) returns (p: Prepared)
    ensures p == PrepareRow(row, mapping)
  {
    var system, custom := MapRow(row, mapping);
    var phone := NormalizeUsPhone(if "phone" in system then system["phone"] else "");
    if phone.None? { return Rejected("invalid_phone"); }
    system := system["phone" := phone.value];
    if "date_of_birth" in system && !ValidDate(Strip(system["date_of_birth"])) {
      return Rejected("invalid_date_of_birth");
    }
    p := Ready(system, custom);
  }

  // ----- classification -----

  datatype Verdict =
    | Invalid(reason: string)
    | Suppressed
    | DuplicateInFile
    | DuplicateInSystem
    | UpdateExisting
    | Insert

  datatype Candidate = Candidate(isUpdate: bool, system: Fields, custom: Fields)

  datatype Counts = Counts(
    total: nat, valid: nat, invalid: nat, duplicatesFile: nat, duplicatesSystem: nat, suppressed: nat)

  /** What the classification of a file is given besides its rows. */
  datatype Setting = Setting(existing: set<string>, suppressed: set<string>, updateExisting: bool)

  function PreparedRows(rows: seq<RawRow>, mapping: Mapping): seq<Prepared> {
    seq(|rows|, i requires 0 <= i < |rows| => PrepareRow(rows[i], mapping))
  }

  function PhoneOf(p: Prepared): Option<string> {
    if p.Ready? && "phone" in p.system then Some(p.system["phone"]) else None
  }

  predicate OccursBefore(ps: seq<Prepared>, i: nat, phone: string)
    requires i <= |ps|
  {
    exists j :: 0 <= j < i && PhoneOf(ps[j]) == Some(phone)
  }

  /** The verdict on row `i`, without any memory of earlier verdicts: an importable phone that is
      neither suppressed nor known is inserted at its first occurrence in the file. */
  function VerdictOn(ps: seq<Prepared>, s: Setting, i: nat): Verdict
    requires i < |ps|
  {
    if ps[i].Rejected? then Invalid(ps[i].reason) else
    var phone := PhoneOf(ps[i]);
    if phone.None? then Invalid("invalid_phone")
    else if phone.value in s.suppressed then Suppressed
    else if phone.value in s.existing then if s.updateExisting then UpdateExisting else DuplicateInSystem
    else if OccursBefore(ps, i, phone.value) then DuplicateInFile
    else Insert
  }

  predicate Survives(v: Verdict) {
    v.Insert? || v.UpdateExisting?
  }

  function ReasonOf(v: Verdict): string
    requires !Survives(v)
  {
    match v
    case Invalid(reason) => reason
    case Suppressed => "suppressed_dnc"
    case DuplicateInFile => "duplicate_in_file"
    case DuplicateInSystem => "duplicate_in_system"
  }

  function Verdicts(ps: seq<Prepared>, s: Setting): seq<Verdict> {
    seq(|ps|, i requires 0 <= i < |ps| => VerdictOn(ps, s, i))
  }

  /** The rows among the first `n` that become candidates, in file order. */
  function Surviving(vs: seq<Verdict>, n: nat): seq<nat>
    requires n <= |vs|
  {
    if n == 0 then [] else
    var front := Surviving(vs, n - 1);
    if Survives(vs[n - 1]) then front + [n - 1] else front
  }

  function Refused(vs: seq<Verdict>, n: nat): seq<nat>
    requires n <= |vs|
  {
    if n == 0 then [] else
    var front := Refused(vs, n - 1);
    if Survives(vs[n - 1]) then front else front + [n - 1]
  }

  /** What one verdict adds to the counters: an updated row counts as valid and as duplicate. */
  function Tally(c: Counts, v: Verdict): Counts {
    match v
    case Invalid(_) => c.(invalid := c.invalid + 1)
    case Suppressed => c.(suppressed := c.suppressed + 1)
    case DuplicateInFile => c.(duplicatesFile := c.duplicatesFile + 1)
    case DuplicateInSystem => c.(duplicatesSystem := c.duplicatesSystem + 1)
    case UpdateExisting => c.(valid := c.valid + 1, duplicatesSystem := c.duplicatesSystem + 1)
    case Insert => c.(valid := c.valid + 1)
  }

  function CountsOf(vs: seq<Verdict>, n: nat): Counts
    requires n <= |vs|
  {
    if n == 0 then Counts(|vs|, 0, 0, 0, 0, 0) else Tally(CountsOf(vs, n - 1), vs[n - 1])
  }

  function CandidateFrom(p: Prepared, v: Verdict): Candidate
    requires p.Ready?
  {
    Candidate(v.UpdateExisting?, p.system, p.custom)
  }

  function CandidatesOf(ps: seq<Prepared>, vs: seq<Verdict>, n: nat): seq<Candidate>
    requires n <= |ps| == |vs|
  {
    if n == 0 then [] else
    var front := CandidatesOf(ps, vs, n - 1);
    if Survives(vs[n - 1]) && ps[n - 1].Ready? then front + [CandidateFrom(ps[n - 1], vs[n - 1])] else front
  }

  /** File lines are counted from 2: the header is line 1. */
  function ErrorsOf(vs: seq<Verdict>, n: nat): seq<(nat, string)>
    requires n <= |vs|
  {
    if n == 0 then [] else
    var front := ErrorsOf(vs, n - 1);
    if Survives(vs[n - 1]) then front else front + [(n + 1, ReasonOf(vs[n - 1]))]
  }

  /** The phones inserted by the first `n` rows: what the loop remembers. */
  function Inserted(ps: seq<Prepared>, s: Setting, n: nat): set<string>
    requires n <= |ps|
  {
    if n == 0 then {} else
    var front := Inserted(ps, s, n - 1);
    if VerdictOn(ps, s, n - 1).Insert? then front + {PhoneOf(ps[n - 1]).value} else front
  }

  lemma {:induction false} InsertedMeaning(ps: seq<Prepared>, s: Setting, n: nat)
    requires n <= |ps|
    ensures forall p :: p in Inserted(ps, s, n) <==> p !in s.suppressed && p !in s.existing && OccursBefore(ps, n, p)
  {
    if n > 0 {
      InsertedMeaning(ps, s, n - 1);
      forall p ensures OccursBefore(ps, n, p) <==> OccursBefore(ps, n - 1, p) || PhoneOf(ps[n - 1]) == Some(p) {
      }
    }
  }

  datatype PhoneVerdict = Clear | OnRegister | InFile | InSystem

  /** `classify_row`: the verdict on one normalized phone against the three sets. */
  function ClassifyPhone(
      phone: string, seenInFile: set<string>, existing: set<string>, suppressed: set<string>): PhoneVerdict {
    if phone in suppressed then OnRegister
    else if phone in seenInFile then InFile
    else if phone in existing then InSystem
    else Clear
  }

  /** Prepares row `i` and classifies its phone against what the loop remembers. */
  method Judge(rows: seq<RawRow>, mapping: Mapping, s: Setting, i: nat, seenInFile: set<string>)
    returns (prepared: Prepared, v: Verdict)
    requires i < |rows| && seenInFile == Inserted(PreparedRows(rows, mapping), s, i)
    ensures prepared == PreparedRows(rows, mapping)[i] && v == VerdictOn(PreparedRows(rows, mapping), s, i)
    ensures prepared.Ready? ==> "phone" in prepared.system
  {
    prepared := Prepare(rows[i], mapping);
    if prepared.Rejected? { return prepared, Invalid(prepared.reason); }
    InsertedMeaning(PreparedRows(rows, mapping), s, i);
    match ClassifyPhone(prepared.system["phone"], seenInFile, s.existing, s.suppressed) {
      case OnRegister => v := Suppressed;
      case InFile => v := DuplicateInFile;
      case InSystem => v := if s.updateExisting then UpdateExisting else DuplicateInSystem;
      case Clear => v := Insert;
    }
  }

  /** What row `i` adds to each result. */
  lemma OneRowMore(ps: seq<Prepared>, s: Setting, vs: seq<Verdict>, i: nat)
    requires i < |ps| && vs == Verdicts(ps, s)
    ensures vs[i] == VerdictOn(ps, s, i) && (Survives(vs[i]) ==> ps[i].Ready?)
    ensures CandidatesOf(ps, vs, i + 1) ==
      CandidatesOf(ps, vs, i) + if Survives(vs[i]) && ps[i].Ready? then [CandidateFrom(ps[i], vs[i])] else []
    ensures ErrorsOf(vs, i + 1) == ErrorsOf(vs, i) + if Survives(vs[i]) then [] else [(i + 2, ReasonOf(vs[i]))]
    ensures CountsOf(vs, i + 1) == Tally(CountsOf(vs, i), vs[i])
    ensures Inserted(ps, s, i + 1) == Inserted(ps, s, i) + if vs[i].Insert? then {PhoneOf(ps[i]).value} else {}
  {
  }

  method ClassifyRows(rows: seq<RawRow>, mapping: Mapping, s: Setting)
    returns (candidates: seq<Candidate>, errors: seq<(nat, string)>, counts: Counts)
    ensures var ps := PreparedRows(rows, mapping);
            var vs := Verdicts(ps, s);
            && candidates == CandidatesOf(ps, vs, |rows|)
            && errors == ErrorsOf(vs, |rows|)
            && counts == CountsOf(vs, |rows|)
  {
    ghost var ps := PreparedRows(rows, mapping);
    ghost var vs := Verdicts(ps, s);
    candidates, errors := [], [];
    counts := Counts(|rows|, 0, 0, 0, 0, 0);
    var seenInFile: set<string> := {};
    for i := 0 to |rows|
      invariant candidates == CandidatesOf(ps, vs, i)
      invariant errors == ErrorsOf(vs, i)
      invariant counts == CountsOf(vs, i)
      invariant seenInFile == Inserted(ps, s, i)
    {
      var prepared, v := Judge(rows, mapping, s, i, seenInFile);
      OneRowMore(ps, s, vs, i);
      counts := Tally(counts, v);
      if Survives(v) {
        candidates := candidates + [Candidate(v.UpdateExisting?, prepared.system, prepared.custom)];
        if v.Insert? { seenInFile := seenInFile + {prepared.system["phone"]}; }
      } else {
        errors := errors + [(i + 2, ReasonOf(v))];
      }
    }
  }
}
