/** The record store of src/backend/database_storage.rs: one JSON file
    mapping a user id to that user's latest enrollment. */
module DatabaseStorage {
  import opened Wrappers

  /** The persisted record (`struct Enrollment`). */
  datatype Enrollment = Enrollment(
    userId: nat,
    userName: string,
    name: string,
    university: string,
    email: string,
    interests: string,
    emailDistro: string)

  /** What `enrollments.json` holds, as far as `save_to_json` can tell:
      nothing (the file is missing), something that cannot be read as text,
      text that does not deserialize to a map, or a map of records. */
  datatype JsonFile =
    | Absent
    | Unreadable
    | Unparseable
    | Entries(records: map<nat, Enrollment>)

  datatype SaveError = CorruptFile

  /** The map `save_to_json` starts from: the stored map, an empty map when
      the file cannot be read, an error when its text does not parse. */
  function Load(file: JsonFile): (r: Result<map<nat, Enrollment>, SaveError>)
    ensures r.Failure? <==> file.Unparseable?
    ensures file.Entries? ==> r == Success(file.records)
    ensures file.Absent? || file.Unreadable? ==> r == Success(map[])
  {
    match file
    case Entries(records) => Success(records)
    case Unparseable => Failure(CorruptFile)
    case _ => Success(map[])
  }

  /** The file after `save_to_json(e)`: the loaded map with `e` inserted
      under its user id, or the untouched file when loading failed. */
  function Saved(file: JsonFile, e: Enrollment): JsonFile {
    match Load(file)
    case Failure(_) => file
    case Success(records) => Entries(records[e.userId := e])
  }

  /** The file holding `enrollments.json`, rewritten in place by each save. */
  class RecordFile {
    var contents: JsonFile

    constructor (initial: JsonFile)
      ensures contents == initial
    {
      contents := initial;
    }

    /** `save_to_json`: load, insert (last write wins), rewrite the file. */
    method SaveToJson(enrollment: Enrollment) returns (r: Result<(), SaveError>)
      modifies this
      ensures r.Success? <==> !old(contents).Unparseable?
      ensures contents == Saved(old(contents), enrollment)
    {
      var enrollments: map<nat, Enrollment> := map[];
      match contents {
        case Entries(records) =>
          enrollments := records;
        case Unparseable =>
          return Failure(CorruptFile);
        case Absent =>
        case Unreadable =>
      }
      enrollments := enrollments[enrollment.userId := enrollment];
      contents := Entries(enrollments);
      r := Success(());
    }
  }

  // ---------------------------------------------------------------------
  // Properties of a save

  /** After a successful save the store maps the record's user id to exactly
      that record. */
  lemma SaveStoresRecord(file: JsonFile, e: Enrollment)
    requires !file.Unparseable?
    ensures Saved(file, e).Entries?
    ensures e.userId in Saved(file, e).records && Saved(file, e).records[e.userId] == e
  {
  }

  /** A save leaves every other user's entry as it was, and adds no other key. */
  lemma SaveKeepsOthers(file: JsonFile, e: Enrollment)
    requires file.Entries?
    ensures Saved(file, e).Entries?
    ensures Saved(file, e).records.Keys == file.records.Keys + {e.userId}
    ensures forall k :: k in file.records && k != e.userId ==> Saved(file, e).records[k] == file.records[k]
  {
  }

  /** Saving the same record twice gives the same file as saving it once. */
  lemma SaveIdempotent(file: JsonFile, e: Enrollment)
    ensures Saved(Saved(file, e), e) == Saved(file, e)
  {
    if !file.Unparseable? {
      var m: map<nat, Enrollment> := Load(file).value;
      assert m[e.userId := e][e.userId := e] == m[e.userId := e];
    }
  }

  /** The number of keys grows by one for a new user id and is unchanged for
      a known one. */
  lemma SaveKeyCount(file: JsonFile, e: Enrollment)
    requires file.Entries?
    ensures e.userId !in file.records ==> |Saved(file, e).records| == |file.records| + 1
    ensures e.userId in file.records ==> |Saved(file, e).records| == |file.records|
  {
    var m: map<nat, Enrollment> := file.records;
    var m': map<nat, Enrollment> := m[e.userId := e];
    if e.userId in m {
      assert m'.Keys == m.Keys;
    } else {
      assert m'.Keys == m.Keys + {e.userId};
      assert |m'.Keys| == |m.Keys| + 1;
    }
  }

  /** Without a readable file the result holds the new record only. */
  lemma SaveFromNothing(file: JsonFile, e: Enrollment)
    requires file.Absent? || file.Unreadable?
    ensures Saved(file, e) == Entries(map[e.userId := e])
  {
  }

  /** A file whose text does not parse is reported and left as it is. */
  lemma SaveOnCorruptFile(file: JsonFile, e: Enrollment)
    requires file.Unparseable?
    ensures Load(file).Failure? && Saved(file, e) == file
  {
  }

  /** Every key names the user of its record. */
  ghost predicate KeyedByUser(file: JsonFile) {
    file.Entries? ==> forall k :: k in file.records ==> file.records[k].userId == k
  }

  lemma SaveKeepsKeying(file: JsonFile, e: Enrollment)
    requires KeyedByUser(file)
    ensures KeyedByUser(Saved(file, e))
  {
  }

  /** Two saves for different users in sequence keep both records. */
  lemma SequentialSavesKeepBoth(file: JsonFile, a: Enrollment, b: Enrollment)
    requires !file.Unparseable?
    requires a.userId != b.userId
    ensures Saved(Saved(file, a), b).Entries?
    ensures Saved(Saved(file, a), b).records[a.userId] == a
    ensures Saved(Saved(file, a), b).records[b.userId] == b
  {
  }
}
