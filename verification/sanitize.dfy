/**
  `sanitize_filename`: `re.sub(r'[<>:"/\\|?*]', '_', filename)`, which
  replaces each of the nine characters of the class by an underscore and
  keeps every other character. The three programs carry identical copies.
*/
module Sanitize {

  /** The characters of the regular-expression class. */
  const Invalid: set<char> := {'<', '>', ':', '"', '/', '\\', '|', '?', '*'}

  /** The substitution, scanning the name left to right as re.sub does. */
  function SanitizeFilename(name: string): (r: string)
    ensures |r| == |name|
    ensures forall i :: 0 <= i < |name| && name[i] in Invalid ==> r[i] == '_'
    ensures forall i :: 0 <= i < |name| && name[i] !in Invalid ==> r[i] == name[i]
    ensures forall i :: 0 <= i < |r| ==> r[i] !in Invalid
  {
    if |name| == 0 then ""
    else
      var c := name[0];
      [if c in Invalid then '_' else c] + SanitizeFilename(name[1..])
  }

  /** Sanitizing a sanitized name changes nothing. */
  lemma SanitizeIdempotent(name: string)
    ensures SanitizeFilename(SanitizeFilename(name)) == SanitizeFilename(name)
  {
    var once := SanitizeFilename(name);
    var twice := SanitizeFilename(once);
    assert forall i :: 0 <= i < |once| ==> twice[i] == once[i];
  }

  /** A name with none of the nine characters is returned unchanged. */
  lemma SanitizeKeepsValid(name: string)
    requires forall i :: 0 <= i < |name| ==> name[i] !in Invalid
    ensures SanitizeFilename(name) == name
  {
    var r := SanitizeFilename(name);
    assert forall i :: 0 <= i < |name| ==> r[i] == name[i];
  }
}
