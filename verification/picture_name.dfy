/**
 * The file name under which a snapshot is written: the text of the clock reading with every
 * '.' turned into '_', framed as `frame_<stamp>.png`. The clock itself is not modelled; the
 * timestamp text is an arbitrary input.
 */
module PictureName {

  const Prefix: string := "frame_"
  const Extension: string := ".png"

  /** The timestamp text with every '.' replaced by '_' (Python's `str.replace('.', '_')`). */
  function ReplaceDots(s: string): (r: string)
    ensures |r| == |s|
    ensures forall i :: 0 <= i < |s| ==> r[i] == (if s[i] == '.' then '_' else s[i])
    ensures '.' !in r
  {
    if |s| == 0 then ""
    else (if s[0] == '.' then "_" else [s[0]]) + ReplaceDots(s[1..])
  }

  /** The name of the picture file written for the clock reading `stamp`. */
  function FileName(stamp: string): (name: string)
    ensures |name| == |Prefix| + |stamp| + |Extension|
    ensures name[..|Prefix|] == Prefix
    ensures name[|name| - |Extension|..] == Extension
    ensures forall i :: 0 <= i < |stamp| && stamp[i] != '.' ==> name[|Prefix| + i] == stamp[i]
    ensures forall i :: 0 <= i < |stamp| && stamp[i] == '.' ==> name[|Prefix| + i] == '_'
    ensures forall i :: 0 <= i < |name| && name[i] == '.' ==> i == |name| - |Extension|
  {
    Prefix + ReplaceDots(stamp) + Extension
  }

  /** A stamp without dots is used verbatim. */
  lemma {:induction false} DotFreeUnchanged(s: string)
    requires '.' !in s
    ensures ReplaceDots(s) == s
  {
    if |s| > 0 {
      assert s[0] != '.';
      assert '.' !in s[1..];
      DotFreeUnchanged(s[1..]);
    }
  }

  /** Replacing twice is the same as replacing once. */
  lemma ReplaceDotsIdempotent(s: string)
    ensures ReplaceDots(ReplaceDots(s)) == ReplaceDots(s)
  {
    DotFreeUnchanged(ReplaceDots(s));
  }

  /** Two stamps that differ only in where they have '.' and '_' give the same file name. */
  lemma SeparatorCollision(a: string, b: string)
    requires |a| == |b|
    requires forall i :: 0 <= i < |a| ==> a[i] == b[i] || (a[i] in "._" && b[i] in "._")
    ensures FileName(a) == FileName(b)
  {
    assert ReplaceDots(a) == ReplaceDots(b);
  }

  /**
   * Clock readings never contain '_'. Among such stamps the file name determines the stamp, so
   * two pictures get the same name only when the clock gives the same reading twice.
   */
  lemma NameInjective(a: string, b: string)
    requires '_' !in a && '_' !in b
    requires FileName(a) == FileName(b)
    ensures a == b
  {
    assert |a| == |b|;
    forall i | 0 <= i < |a|
      ensures a[i] == b[i]
    {
      assert FileName(a)[|Prefix| + i] == FileName(b)[|Prefix| + i];
    }
  }

}
