/**
 * The "Proceed to Diagnosis" button of the patient page (app.py:37-51):
 * with a name, one record is appended to the patient spreadsheet (read the
 * existing rows if the file exists, concatenate, overwrite) and the name is
 * remembered in the session; without a name, a warning and nothing else.
 */
module PatientRecords {
  import opened Wrappers

  datatype Gender = Male | Female | Other

  /** One spreadsheet row: Name, Age, Gender, City, State, Country. */
  datatype PatientRecord = PatientRecord(
    name: string, age: int, gender: Gender, city: string, state: string, country: string)

  datatype SaveOutcome = Saved | NameMissing

  /** The spreadsheet file and the session entry the patient page writes. */
  class PatientStore {
    var fileExists: bool
    var log: seq<PatientRecord>
    var sessionPatient: Option<string>

    /** A spreadsheet that does not exist holds no rows. */
    ghost predicate Valid()
      reads this
    {
      !fileExists ==> log == []
    }

    /** The state at start-up: a spreadsheet left by earlier sessions, or none, and an empty session. */
    constructor (existing: Option<seq<PatientRecord>>)
      ensures Valid()
      ensures fileExists == existing.Some?
      ensures log == (if existing.Some? then existing.value else [])
      ensures sessionPatient == None
    {
      fileExists := existing.Some?;
      log := if existing.Some? then existing.value else [];
      sessionPatient := None;
    }

    /**
     * With a non-empty name the spreadsheet becomes the old rows followed
     * by the new record (just the record when there was no file), and the
     * session remembers the name. With an empty name nothing changes.
     */
    method Save(name: string, age: int, gender: Gender, city: string, state: string, country: string)
      returns (outcome: SaveOutcome)
      requires Valid()
      requires 0 <= age <= 120
      modifies this
      ensures Valid()
      ensures outcome == (if name == "" then NameMissing else Saved)
      ensures name == "" ==>
        fileExists == old(fileExists) && log == old(log) && sessionPatient == old(sessionPatient)
      ensures name != "" ==>
        fileExists && sessionPatient == Some(name) &&
        log == old(log) + [PatientRecord(name, age, gender, city, state, country)]
      ensures name != "" && !old(fileExists) ==>
        log == [PatientRecord(name, age, gender, city, state, country)]
    {
      if name != "" {
        var rows := [PatientRecord(name, age, gender, city, state, country)];
        if fileExists {
          rows := log + rows;
        }
        log := rows;
        fileExists := true;
        sessionPatient := Some(name);
        outcome := Saved;
      } else {
        outcome := NameMissing;
      }
    }
  }

  /** Two submissions in a row keep earlier rows and add both records in order. */
  method SaveTwice(store: PatientStore, first: PatientRecord, second: PatientRecord)
    requires store.Valid()
    requires first.name != "" && second.name != ""
    requires 0 <= first.age <= 120 && 0 <= second.age <= 120
    modifies store
    ensures store.Valid()
    ensures store.log == old(store.log) + [first, second]
    ensures store.sessionPatient == Some(second.name)
  {
    var _ := store.Save(first.name, first.age, first.gender, first.city, first.state, first.country);
    var _ := store.Save(second.name, second.age, second.gender, second.city, second.state, second.country);
  }
}
