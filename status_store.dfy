/**
 * `load_previous_status` and `save_status` (monitor.py), with the file and
 * its JSON encoding replaced by the value the file holds.
 */
module StatusStore {

  /** The status file between runs: absent, unreadable (I/O or JSON error),
      or holding a product-key to availability map. */
  datatype StatusFile = Missing | Unreadable | Stored(status: map<string, bool>)

  /** Loading never fails: a missing or unreadable file reads as `{}`. */
  function Load(file: StatusFile): (m: map<string, bool>)
    ensures file.Stored? ==> m == file.status
    ensures !file.Stored? ==> m == map[]
  {
    if file.Stored? then file.status else map[]
  }

  /** How `save_status` ends. `open(..., 'w')` empties the file before
      `json.dump` writes, so a failure after opening leaves an empty or
      partial file behind; a failure to open leaves the file untouched. */
  datatype SaveOutcome = Written | OpenFailed | WriteFailed

  /** Saving overwrites the file with `status`. Errors are swallowed: a
      failed open leaves the file as it was, a failed write leaves a file
      that no longer parses. */
  function Save(file: StatusFile, status: map<string, bool>, outcome: SaveOutcome): (f: StatusFile)
    ensures outcome == Written ==> f == Stored(status)
    ensures outcome == OpenFailed ==> f == file
    ensures outcome == WriteFailed ==> !f.Stored?
  {
    match outcome
    case Written => Stored(status)
    case OpenFailed => file
    case WriteFailed => Unreadable
  }

  /** What a successful save writes is what the next load reads. */
  lemma SaveLoadRoundTrip(file: StatusFile, status: map<string, bool>)
    ensures Load(Save(file, status, Written)) == status
  {
  }

  /** A save that fails after opening loses every recorded status: the next
      load reads `{}`, whatever was saved before. */
  lemma InterruptedSaveLosesStatus(file: StatusFile, status: map<string, bool>)
    ensures Load(Save(file, status, WriteFailed)) == map[]
  {
  }
}
