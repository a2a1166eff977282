/**
 * The name under which an enrolment photo is stored: every space of the
 * display name becomes an underscore and the extension `.jpg` is appended.
 */
module PhotoName {

  /** The extension every stored photo gets. */
  const Extension: string := ".jpg"

  /** The display name with every ' ' replaced by '_' (Python's `str.replace(" ", "_")`). */
  function ReplaceSpaces(name: string): (stem: string)
    ensures |stem| == |name|
    ensures forall i :: 0 <= i < |name| ==> stem[i] == (if name[i] == ' ' then '_' else name[i])
  {
    if name == [] then []
    else [if name[0] == ' ' then '_' else name[0]] + ReplaceSpaces(name[1..])
  }

  /** The file name `admin_register` stores the photo under and records in the users row. */
  function PhotoFilename(name: string): (file: string)
    ensures |file| == |name| + 4
    ensures file[|name|..] == Extension
    ensures ' ' !in file[..|name|]
    ensures forall i :: 0 <= i < |name| && name[i] != ' ' ==> file[i] == name[i]
    ensures forall i :: 0 <= i < |name| && name[i] == ' ' ==> file[i] == '_'
  {
    var stem := ReplaceSpaces(name);
    assert (stem + Extension)[..|name|] == stem;
    stem + Extension
  }

  /** Two characters that end up the same in a stored file name. */
  predicate SameInFilename(c: char, d: char)
  {
    c == d || (c in " _" && d in " _")
  }

  /**
   * Two display names get the same stored file name (the `photo` column) exactly
   * when they have the same length and differ only by swapping spaces and
   * underscores; when they do, enrolling one of them overwrites the photo of the other.
   */
  lemma FilenameCollision(a: string, b: string)
    ensures PhotoFilename(a) == PhotoFilename(b) <==>
            |a| == |b| && forall i :: 0 <= i < |a| ==> SameInFilename(a[i], b[i])
  {
    var sa, sb := ReplaceSpaces(a), ReplaceSpaces(b);
    assert PhotoFilename(a) == sa + Extension && PhotoFilename(b) == sb + Extension;
    if sa + Extension == sb + Extension {
      assert sa == (sa + Extension)[..|sa|] == (sb + Extension)[..|sb|] == sb;
      forall i | 0 <= i < |a| ensures SameInFilename(a[i], b[i]) {
        assert sa[i] == sb[i];
      }
    }
    if |a| == |b| && forall i :: 0 <= i < |a| ==> SameInFilename(a[i], b[i]) {
      forall i | 0 <= i < |sa| ensures sa[i] == sb[i] {
        assert SameInFilename(a[i], b[i]);
      }
      assert sa == sb;
    }
  }

  /** A name with a space and the same name with an underscore there get the same file. */
  lemma SpaceAndUnderscoreCollide()
    ensures PhotoFilename("Budi Santoso") == PhotoFilename("Budi_Santoso")
  {
    FilenameCollision("Budi Santoso", "Budi_Santoso");
  }
}
