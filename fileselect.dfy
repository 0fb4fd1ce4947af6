/**
 * The directory-scan filter (file_select in centroid.c): a directory entry is
 * kept when its name is neither "." nor ".." and the part from its last '.'
 * on is exactly ".fits". Names are modelled as strings of the characters
 * before the terminating NUL.
 */
module FileFilter {
  import opened Outcomes

  /**
   * strrchr(s, ch): the index of the last occurrence of ch in s, or None when
   * ch does not occur.
   */
  function LastIndexOf(s: string, ch: char): (r: Option<nat>)
    ensures r.None? <==> ch !in s
    ensures r.Some? ==> r.value < |s| && s[r.value] == ch
    ensures r.Some? ==> forall k :: r.value < k < |s| ==> s[k] != ch
  {
    if s == [] then None
    else if s[|s| - 1] == ch then Some(|s| - 1)
    else
      var r := LastIndexOf(s[..|s| - 1], ch);
      assert s == s[..|s| - 1] + [s[|s| - 1]];
      r
  }

  /** The FITS extension test that the filter is meant to perform: the name ends in ".fits". */
  predicate HasFitsExtension(name: string) {
    |name| >= 5 && name[|name| - 5..] == ".fits"
  }

  /**
   * file_select: rejects the directory entries "." and "..", then accepts the
   * name when its last '.' exists and starts the suffix ".fits".
   */
  function FileSelect(name: string): (accepted: bool)
    ensures accepted ==> name != "." && name != ".."
    ensures accepted ==> '.' in name
  {
    if name == "." || name == ".." then false
    else
      match LastIndexOf(name, '.')
      case None => false
      case Some(i) => name[i..] == ".fits"
  }

  /**
   * The filter accepts exactly the names ending in ".fits": the last '.' of
   * such a name is the one that starts the suffix, since "fits" holds no '.',
   * and "." and ".." are too short to end in ".fits". In particular a name
   * such as "a.fits.gz" is rejected and the hidden name ".fits" is accepted.
   */
  lemma FileSelectIsFitsExtension(name: string)
    ensures FileSelect(name) <==> HasFitsExtension(name)
  {
    var n := |name|;
    if HasFitsExtension(name) {
      assert name[n - 5] == '.' && forall k :: n - 5 < k < n ==> name[k] != '.' by {
        assert forall k :: n - 5 <= k < n ==> name[k] == ".fits"[k - (n - 5)];
      }
      var r := LastIndexOf(name, '.');
      assert r.Some? by { assert name[n - 5] in name; }
      assert r.value == n - 5;
    }
    if FileSelect(name) {
      var i := LastIndexOf(name, '.').value;
      assert name[i..] == ".fits";
      assert name[n - 5..] == name[i..];
    }
  }
}
