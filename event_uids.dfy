/** `get_event_uids`: decoding the text that the AppleScript helper prints
    (event UIDs, comma-separated) into a list of UIDs. Running the helper and decoding its bytes as UTF-8 are not part of
    this model: the decoded text is the input. */
module EventUids {
  import opened PythonStrings

  /** True when the helper printed nothing but dots and whitespace. */
  predicate OnlyDotsAndSpace(output: string) {
    forall i :: 0 <= i < |output| ==> output[i] == '.' || IsSpace(output[i])
  }

  /** The helper's text with every '.' removed and whitespace stripped from both
      ends: what is then split on ','. */
  function Cleaned(output: string): (cleaned: string)
    ensures '.' !in cleaned
    ensures Unpadded(cleaned)
  {
    RemoveCharMultiset(output, '.');
    StripKeepsAbsent(RemoveChar(output, '.'), '.');
    Strip(RemoveChar(output, '.'))
  }

  /** The UIDs printed by the helper: the cleaned text split on ',', except
      that a blank text gives no UIDs at all, so the list is never that of a
      single empty UID. */
  function GetEventUids(output: string): (uids: seq<string>)
    ensures uids != [""]
  {
    var parts := Split(Cleaned(output), ',');
    if |parts| == 1 && parts[0] == "" then [] else parts
  }

  /** When the list is not empty, the UIDs joined with ',' give back the
      cleaned text. No UID holds a '.' or a ','. The list is empty exactly when
      the helper printed nothing but dots and whitespace. */
  lemma GetEventUidsProperties(output: string)
    ensures GetEventUids(output) != [] ==> Join(GetEventUids(output), ',') == Cleaned(output)
    ensures forall u :: u in GetEventUids(output) ==> '.' !in u && ',' !in u
    ensures GetEventUids(output) == [] <==> OnlyDotsAndSpace(output)
  {
    var cleaned := Cleaned(output);
    SplitKeepsAbsent(cleaned, ',', '.');
    BlankAfterDotRemoval(output);
  }

  /** The text left after removing dots is blank exactly when the text held
      only dots and whitespace. */
  lemma {:induction false} BlankAfterDotRemoval(output: string)
    ensures IsBlank(RemoveChar(output, '.')) <==> OnlyDotsAndSpace(output)
  {
    if output != [] {
      BlankAfterDotRemoval(output[1..]);
      var head := if output[0] == '.' then [] else [output[0]];
      var rest := RemoveChar(output[1..], '.');
      assert RemoveChar(output, '.') == head + rest;
      if IsBlank(head + rest) {
        assert forall i :: 0 <= i < |rest| ==> rest[i] == (head + rest)[|head| + i];
        if head != [] { assert head[0] == (head + rest)[0]; }
        forall i | 0 <= i < |output| ensures output[i] == '.' || IsSpace(output[i]) {
          if i > 0 { assert output[i] == output[1..][i - 1]; }
        }
      }
      if OnlyDotsAndSpace(output) {
        assert OnlyDotsAndSpace(output[1..]) by {
          forall i | 0 <= i < |output[1..]| ensures output[1..][i] == '.' || IsSpace(output[1..][i]) {
            assert output[1..][i] == output[i + 1];
          }
        }
      }
    }
  }

  /** Round trip: a helper text made by joining separator-free, dot-free UIDs
      with ',' (and not padded with whitespace) decodes to those UIDs. The one
      list that does not come back is the list of a single empty UID. */
  lemma GetEventUidsOfJoin(uids: seq<string>)
    requires uids != [""]
    requires forall u :: u in uids ==> '.' !in u && ',' !in u
    requires Unpadded(Join(uids, ','))
    ensures GetEventUids(Join(uids, ',')) == uids
  {
    var text := Join(uids, ',');
    CleanedOfJoin(uids);
    if uids == [] {
      assert Split(text, ',') == [""];
    } else {
      SplitJoin(uids, ',');
      GetEventUidsOfSplit(text, uids);
    }
  }

  /** A joined list of dot-free UIDs without padding is already clean. */
  lemma CleanedOfJoin(uids: seq<string>)
    requires forall u :: u in uids ==> '.' !in u
    requires Unpadded(Join(uids, ','))
    ensures Cleaned(Join(uids, ',')) == Join(uids, ',')
  {
    var text := Join(uids, ',');
    JoinKeepsAbsent(uids, ',', '.');
    RemoveCharAbsent(text, '.');
    StripUnchanged(text);
  }

  /** On clean text whose split is not a single empty piece, the UIDs are the split. */
  lemma GetEventUidsOfSplit(text: string, parts: seq<string>)
    requires Cleaned(text) == text
    requires Split(text, ',') == parts
    requires parts != [""]
    ensures GetEventUids(text) == parts
  {
  }
}
