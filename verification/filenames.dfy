/**
 * Extension stripping, the first step of the export name pipeline:
 * a file name is cut at its last '.', found the way JavaScript's
 * `String.prototype.lastIndexOf` finds it.
 */
module FileNames {

  /** The position of the last occurrence of `c` in `s`, or -1 when `c` does not occur. */
  function LastIndexOf(s: string, c: char): (k: int)
    ensures -1 <= k < |s|
    ensures 0 <= k ==> s[k] == c
    ensures forall j :: k < j < |s| ==> s[j] != c
    ensures k == -1 <==> c !in s
    decreases |s|
  {
    if |s| == 0 then -1
    else if s[|s| - 1] == c then |s| - 1
    else
      var k := LastIndexOf(s[..|s| - 1], c);
      assert forall j :: k < j < |s| - 1 ==> s[..|s| - 1][j] == s[j];
      k
  }

  /** An extension: a '.' followed by text that holds no further '.'. */
  ghost predicate IsExtension(ext: string) {
    |ext| > 0 && ext[0] == '.' && '.' !in ext[1..]
  }

  /** The number of '.' characters in `s`. */
  ghost function DotCount(s: string): nat {
    multiset(s)['.']
  }

  /**
   * The name with its last extension removed: everything before the last
   * '.', or the whole name when it has no '.'.
   */
  function StripExtension(name: string): (stem: string)
    ensures stem <= name
    ensures '.' !in name ==> stem == name
    ensures '.' in name ==> IsExtension(name[|stem|..])
    ensures |stem| < |name| <==> '.' in name
  {
    var lastDot := LastIndexOf(name, '.');
    if lastDot != -1 then name[..lastDot] else name
  }

  /**
   * StripExtension is characterised by its result: `stem` is the stripped
   * name exactly when the rest of the name is a single extension, or when
   * the name has no '.' and `stem` is the whole name.
   */
  lemma StripExtensionCharacterisation(name: string, stem: string)
    ensures StripExtension(name) == stem <==>
              (stem <= name && IsExtension(name[|stem|..])) || ('.' !in name && stem == name)
  {
    var r := StripExtension(name);
    if stem <= name && IsExtension(name[|stem|..]) {
      assert name[|stem|] == '.';
      assert '.' in name;
      assert name[|r|] == '.';
      assert |r| == |stem|;
      assert r == name[..|r|] == stem;
    }
  }

  /** Appending one extension to a stem and stripping gives the stem back. */
  lemma StripExtensionOfSplit(stem: string, ext: string)
    requires IsExtension(ext)
    ensures StripExtension(stem + ext) == stem
  {
    StripExtensionCharacterisation(stem + ext, stem);
    assert (stem + ext)[|stem|..] == ext;
  }

  /**
   * Only the last extension goes: with two extensions, as in
   * "archive.tar.gz", stripping keeps the first one ("archive.tar").
   */
  lemma StripExtensionKeepsInnerExtension(stem: string, inner: string, last: string)
    requires IsExtension(inner) && IsExtension(last)
    ensures StripExtension(stem + inner + last) == stem + inner
  {
    StripExtensionOfSplit(stem + inner, last);
  }

  /**
   * A dotfile whose only '.' is its first character, such as ".bashrc",
   * strips to the empty name.
   */
  lemma StripExtensionDotfile(name: string)
    requires |name| > 0 && name[0] == '.' && '.' !in name[1..]
    ensures StripExtension(name) == ""
  {
    StripExtensionCharacterisation(name, "");
  }

  /**
   * Stripping twice is the same as stripping once exactly when the name
   * holds at most one '.'.
   */
  lemma StripExtensionIdempotentIff(name: string)
    ensures StripExtension(StripExtension(name)) == StripExtension(name) <==> DotCount(name) <= 1
  {
    var stem := StripExtension(name);
    if '.' in name {
      var ext := name[|stem|..];
      assert name == stem + ext;
      assert ext == [ext[0]] + ext[1..];
      assert multiset(ext[1..])['.'] == 0;
      assert DotCount(name) == DotCount(stem) + 1;
      assert '.' in stem <==> DotCount(stem) > 0;
    } else {
      assert DotCount(name) == 0;
    }
  }
}
