/** The file-type test of the texture loader (hasExtension in
    src/texture.cpp): a case-insensitive suffix comparison, used to send
    ".svg" files to the vector rasteriser. */
module Texture {

  /** ::tolower in the "C" locale: 'A'..'Z' become 'a'..'z', every other
      character is returned as it is. */
  function ToLower(ch: char): (l: char)
    ensures 'A' <= ch <= 'Z' ==> 'a' <= l <= 'z' && l as int - ch as int == 'a' as int - 'A' as int
    ensures !('A' <= ch <= 'Z') ==> l == ch
  {
    if 'A' <= ch <= 'Z' then (ch as int - 'A' as int + 'a' as int) as char else ch
  }

  /** Two characters that are equal once lowered. */
  predicate SameIgnoringCase(a: char, b: char) {
    ToLower(a) == ToLower(b)
  }

  /** std::transform(..., ::tolower) over a whole string. */
  function Lower(s: string): (l: string)
    ensures |l| == |s|
    ensures forall i :: 0 <= i < |s| ==> l[i] == ToLower(s[i])
  {
    seq(|s|, i requires 0 <= i < |s| => ToLower(s[i]))
  }

  /** hasExtension: a path shorter than the extension never matches;
      otherwise its last |ext| characters, lowered, must equal the lowered
      extension. */
  function HasExtension(path: string, ext: string): (b: bool)
    ensures |path| < |ext| ==> !b
    ensures b <==> (|ext| <= |path| &&
      forall i :: 0 <= i < |ext| ==> SameIgnoringCase(path[|path| - |ext| + i], ext[i]))
  {
    if |path| < |ext| then false
    else
      var a := path[|path| - |ext|..];
      assert Lower(a) == Lower(ext) <==> forall i :: 0 <= i < |ext| ==> Lower(a)[i] == Lower(ext)[i];
      Lower(a) == Lower(ext)
  }

  /** Lowering is idempotent. */
  lemma LowerTwice(s: string)
    ensures Lower(Lower(s)) == Lower(s)
  {
  }

  /** The empty extension matches every path. */
  lemma EmptyExtensionMatches(path: string)
    ensures HasExtension(path, [])
  {
  }

  /** Only the last |ext| characters of the path take part: two paths that
      end the same way agree, whatever comes before. */
  lemma SuffixOnly(prefix1: string, prefix2: string, tail: string, ext: string)
    requires |ext| <= |tail|
    ensures HasExtension(prefix1 + tail, ext) == HasExtension(prefix2 + tail, ext)
  {
    var p1, p2 := prefix1 + tail, prefix2 + tail;
    forall i | 0 <= i < |ext|
      ensures SameIgnoringCase(p1[|p1| - |ext| + i], ext[i]) == SameIgnoringCase(p2[|p2| - |ext| + i], ext[i])
    {
      assert p1[|p1| - |ext| + i] == tail[|tail| - |ext| + i];
      assert p2[|p2| - |ext| + i] == tail[|tail| - |ext| + i];
    }
  }

  /** Case is ignored in the path: lowering it first changes nothing. */
  lemma PathCaseIgnored(path: string, ext: string)
    ensures HasExtension(Lower(path), ext) == HasExtension(path, ext)
  {
    var lp := Lower(path);
    var d := |path| - |ext|;
    forall i | 0 <= i < |ext| && 0 <= d
      ensures SameIgnoringCase(lp[d + i], ext[i]) == SameIgnoringCase(path[d + i], ext[i])
    {
      LowerCharTwice(path[d + i]);
    }
  }

  /** Case is ignored in the extension: lowering it first changes nothing. */
  lemma ExtensionCaseIgnored(path: string, ext: string)
    ensures HasExtension(path, Lower(ext)) == HasExtension(path, ext)
  {
    var le := Lower(ext);
    forall i | 0 <= i < |ext| && |ext| <= |path|
      ensures SameIgnoringCase(path[|path| - |ext| + i], le[i]) == SameIgnoringCase(path[|path| - |ext| + i], ext[i])
    {
      LowerCharTwice(ext[i]);
    }
  }

  /** Lowering one character is idempotent. */
  lemma LowerCharTwice(ch: char)
    ensures ToLower(ToLower(ch)) == ToLower(ch)
  {
  }

  /** The loader's use: an upper-case ".SVG" file is recognised as ".svg",
      and a ".png" file is not. */
  lemma SvgInAnyCase()
    ensures HasExtension("ICON.SVG", ".svg")
    ensures HasExtension("icon.svg", ".SVG")
    ensures !HasExtension("icon.png", ".svg")
    ensures !HasExtension("vg", ".svg")
  {
    var png, svg := "icon.png", ".svg";
    assert png[|png| - |svg| + 1] == 'p' && svg[1] == 's';
    assert !SameIgnoringCase('p', 's');
  }
}
