/** File-name splitting of `FileUtil`: `getExtension` and `getNameSansExtension`.
    Both work on the last path component (`file.getName()`), so the model takes
    that component as a string. */
module FileUtil {

  /** `String.lastIndexOf(c)`: the index of the last occurrence of `c` in `s`,
      or -1 when `c` does not occur. */
  function LastIndexOf(s: string, c: char): (i: int)
    ensures -1 <= i < |s|
    ensures i == -1 <==> c !in s
    ensures 0 <= i ==> s[i] == c && c !in s[i + 1..]
  {
    if |s| == 0 then -1
    else if s[|s| - 1] == c then |s| - 1
    else LastIndexOf(s[..|s| - 1], c)
  }

  /** `getExtension`: the suffix of the name that starts at its last dot,
      the dot included, or "" when the name has no dot. */
  function GetExtension(name: string): (ext: string)
    ensures |ext| <= |name| && ext == name[|name| - |ext|..]
    ensures '.' !in name ==> ext == ""
    ensures '.' in name ==> |ext| >= 1 && ext[0] == '.' && '.' !in ext[1..]
  {
    var i := LastIndexOf(name, '.');
    if i >= 0 then name[i..] else ""
  }

  /** `getNameSansExtension`: the prefix of the name before its last dot,
      or the whole name when it has no dot. */
  function GetNameSansExtension(name: string): (base: string)
    ensures base <= name
    ensures '.' !in name ==> base == name
    ensures '.' in name ==> |base| < |name| && name[|base|] == '.' && '.' !in name[|base| + 1..]
  {
    var i := LastIndexOf(name, '.');
    if i >= 0 then name[..i] else name
  }

  /** Cutting a name into base and extension loses nothing: gluing the two
      parts back together gives the name again. */
  lemma SplitRoundTrip(name: string)
    ensures GetNameSansExtension(name) + GetExtension(name) == name
  {
    var i := LastIndexOf(name, '.');
    if i >= 0 {
      assert name[..i] + name[i..] == name;
    }
  }

  /** The split is at the last dot: the extension holds exactly one dot when
      the name has any, and the base keeps every other dot of the name. */
  lemma ExtensionHoldsOneDot(name: string)
    requires '.' in name
    ensures multiset(GetExtension(name))['.'] == 1
    ensures multiset(GetNameSansExtension(name))['.'] + 1 == multiset(name)['.']
  {
    var ext := GetExtension(name);
    var base := GetNameSansExtension(name);
    SplitRoundTrip(name);
    assert ext == [ext[0]] + ext[1..];
    assert multiset(ext) == multiset([ext[0]]) + multiset(ext[1..]);
    assert multiset(name) == multiset(base) + multiset(ext);
  }

  /** The three cases listed in the documentation of `getExtension`. */
  lemma DocumentedExamples()
    ensures GetExtension("name.ext") == ".ext"
    ensures GetExtension("name.") == "."
    ensures GetExtension("name") == ""
    ensures GetNameSansExtension("name.ext") == "name"
    ensures GetNameSansExtension("name") == "name"
  {
    assert LastIndexOf("name.ext", '.') == 4 by {
      assert "name.ext"[4] == '.';
      assert '.' !in "name.ext"[5..] by { assert "name.ext"[5..] == "ext"; }
    }
    assert LastIndexOf("name.", '.') == 4 by {
      assert "name."[4] == '.';
    }
    assert '.' !in "name";
  }
}
