/** The naming rules of shelve.c: which shelf names are allowed, and the
    names of the three kinds of file a shelf keeps in the shelves directory
    (the version pointer, the revprops and one patch per version). */
module ShelfNames {
  import opened Wrappers
  import opened Decimal

  /** The errors shelve.c raises itself. NoVersions and BadVersion are both
      SVN_ERR_CLIENT_BAD_REVISION, with their two different messages. */
  datatype ShelfError =
    | BadName(name: string)                                   // SVN_ERR_BAD_CHANGELIST_NAME
    | NoVersions(shelf: string)                               // "no versions available"
    | BadVersion(shelf: string, version: int, maxVersion: int) // "has no version %d"
    | NotFound(file: string)                                  // APR_ENOENT on a file that must exist
    | MalformedRevprops(file: string)                         // svn_hash_read2 failure
    | Foreign(code: int)                                      // reported by a collaborator, passed on

  /** validate_name: a name is refused when it is empty or holds a '/'. */
  function ValidateName(name: string): Option<ShelfError>
  {
    if name == [] || '/' in name then Some(BadName(name)) else None
  }

  predicate ValidName(name: string)
  {
    ValidateName(name).None?
  }

  /** get_patch_abspath: "<name>-<version as %03d>.patch". */
  function PatchFileName(name: string, version: int): string
  {
    name + "-" + FormatInt(version, 3) + ".patch"
  }

  /** get_log_abspath: "<name>.log". */
  function LogFileName(name: string): string
  {
    name + ".log"
  }

  /** get_current_abspath: "<name>.current". */
  function CurrentFileName(name: string): string
  {
    name + ".current"
  }

  const CurrentSuffix: string := ".current"

  /** The shelf that a directory entry is the version pointer of, if any:
      an entry names a shelf exactly when it ends in ".current", and the shelf
      name is what comes before those 8 characters. */
  function ShelfOfEntry(filename: string): Option<string>
  {
    if |filename| >= |CurrentSuffix| && filename[|filename| - |CurrentSuffix|..] == CurrentSuffix
    then Some(filename[..|filename| - |CurrentSuffix|])
    else None
  }

  /** The same test as svn_client_shelves_list writes it: the guard is
      `len > 6` although the suffix is 8 long, so for a 7-character name
      strcmp starts one byte before the name. That byte is `before`; the
      name copied out is then the whole entry (apr_pstrndup with len - 8
      wrapped round to a huge size_t). */
  function ShelfOfEntryAsWritten(filename: string, before: char): Option<string>
  {
    var memory := [before] + filename;
    var len := |filename|;
    if len > 6 && memory[len + 1 - |CurrentSuffix|..] == CurrentSuffix
    then Some(if len >= |CurrentSuffix| then filename[..len - |CurrentSuffix|] else filename)
    else None
  }

  lemma ValidNames()
    ensures ValidName("a\\b") && ValidName(".") && ValidName("..") && ValidName("foo.bar")
    ensures !ValidName("") && !ValidName("a/b") && !ValidName("/")
  {
    assert '/' in "a/b";
    assert '/' in "/";
  }

  /** The version text is padded to three digits and grows past 999. */
  lemma PatchFileNameExamples()
    ensures PatchFileName("foo", 1) == "foo-001.patch"
    ensures PatchFileName("foo", 7) == "foo-007.patch"
    ensures PatchFileName("foo", 1000) == "foo-1000.patch"
  {
    assert Radix.Digits(1, 10) == "1";
    assert Radix.Digits(7, 10) == "7";
    assert Radix.Digits(1, 10) == "1";
    assert Radix.Digits(10, 10) == "10";
    assert Radix.Digits(100, 10) == "100";
    assert Radix.Digits(1000, 10) == "1000";
    assert Radix.Zeros(2) == "00";
    assert Radix.Zeros(0) == "";
  }

  /** Distinct versions of one shelf never share a patch file. */
  lemma PatchFileNameInjective(name: string, v: int, w: int)
    requires PatchFileName(name, v) == PatchFileName(name, w)
    ensures v == w
  {
    var a, b := FormatInt(v, 3), FormatInt(w, 3);
    var s := PatchFileName(name, v);
    var lo := |name| + 1;
    assert |a| == |b|;
    assert s[lo..lo + |a|] == a;
    assert PatchFileName(name, w)[lo..lo + |b|] == b;
    FormatInjective(v, w, 3);
  }

  /** The three kinds of file never share a name, whatever the shelves. */
  lemma FileKindsDistinct(n1: string, n2: string, v: int)
    ensures PatchFileName(n1, v) != LogFileName(n2)
    ensures PatchFileName(n1, v) != CurrentFileName(n2)
    ensures LogFileName(n1) != CurrentFileName(n2)
  {
    var p, l, c := PatchFileName(n1, v), LogFileName(n2), CurrentFileName(n2);
    assert p[|p| - 1] == 'h' && l[|l| - 1] == 'g' && c[|c| - 1] == 't';
    var l1 := LogFileName(n1);
    assert l1[|l1| - 1] == 'g';
  }

  /** Listing finds every pointer file and recovers its shelf's name. */
  lemma ShelfOfPointerFile(name: string)
    ensures ShelfOfEntry(CurrentFileName(name)) == Some(name)
  {
    var f := CurrentFileName(name);
    assert f[|f| - |CurrentSuffix|..] == CurrentSuffix;
    assert f[..|f| - |CurrentSuffix|] == name;
  }

  /** Listing reports nothing but pointer files. */
  lemma OnlyPointerFilesNameShelves(filename: string, name: string)
    requires ShelfOfEntry(filename) == Some(name)
    ensures filename == CurrentFileName(name)
  {
    var k := |filename| - |CurrentSuffix|;
    assert filename == filename[..k] + filename[k..];
  }

  /** For entries of 8 characters or more the guard as written decides like
      the intended one, whatever lies in memory before the name. */
  lemma AsWrittenAgreesFromEightChars(filename: string, before: char)
    requires |filename| >= |CurrentSuffix|
    ensures ShelfOfEntryAsWritten(filename, before) == ShelfOfEntry(filename)
  {
    var memory := [before] + filename;
    var len := |filename|;
    assert memory[len + 1 - |CurrentSuffix|..] == filename[len - |CurrentSuffix|..];
  }

  /** The 7-character entry "current" passes the guard as written and is
      compared from one byte before its start; when that byte is '.', it is
      listed as a shelf named "current" with no pointer file of its own. */
  lemma AsWrittenReadsBeforeSevenCharEntry()
    ensures |"current"| == 7 && 6 < |"current"| < |CurrentSuffix|
    ensures ShelfOfEntryAsWritten("current", '.') == Some("current")
    ensures ShelfOfEntry("current") == None
  {
    assert ([ '.' ] + "current")[0..] == CurrentSuffix;
  }
}
