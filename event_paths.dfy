/** `get_event_path`: from an event UID to the `.ics` file that the calendar
    store keeps it in. The filesystem search itself is a parameter: `glob`
    maps a file name to the paths that `glob.glob` returns for the pattern
    `~/Library/Calendars/<any>/<any>/Events/<file name>`, each `<any>` one directory level, in the order it returns them. */
module EventPaths {
  import opened Wrappers
  import opened PythonStrings

  const IcsSuffix := ".ics"

  /** The name of the event file: the UID with every '.' removed, then `.ics`.
      The only '.' in the name is the one that starts the suffix. */
  function EventFilename(uid: string): (name: string)
    ensures |name| >= |IcsSuffix| && name[|name| - |IcsSuffix|..] == IcsSuffix
    ensures '.' !in FilenameStem(name)
  {
    RemoveCharMultiset(uid, '.');
    RemoveChar(uid, '.') + IcsSuffix
  }

  /** The part of an event file name before the `.ics` suffix. */
  function FilenameStem(name: string): string
    requires |name| >= |IcsSuffix|
  {
    name[..|name| - |IcsSuffix|]
  }

  /** Inverse: an `.ics` name whose stem has no '.' is the event file name of its stem. */
  lemma EventFilenameOfStem(name: string)
    requires |name| >= |IcsSuffix| && name[|name| - |IcsSuffix|..] == IcsSuffix
    requires '.' !in FilenameStem(name)
    ensures EventFilename(FilenameStem(name)) == name
  {
    RemoveCharAbsent(FilenameStem(name), '.');
  }

  /** Two UIDs share an event file exactly when they agree once their dots are removed. */
  lemma SameEventFile(uid1: string, uid2: string)
    ensures EventFilename(uid1) == EventFilename(uid2) <==> RemoveChar(uid1, '.') == RemoveChar(uid2, '.')
  {
    if EventFilename(uid1) == EventFilename(uid2) {
      assert FilenameStem(EventFilename(uid1)) == RemoveChar(uid1, '.');
      assert FilenameStem(EventFilename(uid2)) == RemoveChar(uid2, '.');
    }
  }

  /** Removing the dots first changes nothing: dot removal is idempotent, and a
      UID that `get_event_uids` already cleaned names the same file. */
  lemma EventFilenameNormalized(uid: string)
    ensures EventFilename(RemoveChar(uid, '.')) == EventFilename(uid)
  {
    RemoveCharIdempotent(uid, '.');
  }

  /** The path of the event's file: the first match of the search, or None
      when nothing matched. A path it returns is one the search found for
      this UID's file name. */
  function GetEventPath(uid: string, glob: string -> seq<string>): (path: Option<string>)
    ensures path == None <==> glob(EventFilename(uid)) == []
    ensures path.Some? ==> path.value in glob(EventFilename(uid))
    ensures path.Some? ==> path.value == glob(EventFilename(uid))[0]
  {
    var matches := glob(EventFilename(uid));
    if matches != [] then Some(matches[0]) else None
  }

  /** UIDs that differ only in their dots are looked up identically. */
  lemma GetEventPathIgnoresDots(uid: string, glob: string -> seq<string>)
    ensures GetEventPath(RemoveChar(uid, '.'), glob) == GetEventPath(uid, glob)
  {
    EventFilenameNormalized(uid);
  }
}
