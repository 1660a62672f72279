/** Text operations behind the search and filter views: a lower-case fold
    (String.prototype.toLowerCase, restricted to ASCII) and a substring test
    (String.prototype.includes). */
module Text {

  /** Folds an ASCII upper-case letter to its lower-case letter; every other
      character is left alone. */
  function Lower(c: char): (d: char)
    ensures !('A' <= d <= 'Z')
    ensures d != c ==> 'A' <= c <= 'Z' && d as int - c as int == 'a' as int - 'A' as int
    ensures 'A' <= c <= 'Z' ==> 'a' <= d <= 'z'
  {
    if 'A' <= c <= 'Z' then (c as int - 'A' as int + 'a' as int) as char else c
  }

  /** The string with every character folded by Lower. */
  function LowerStr(s: string): (t: string)
    ensures |t| == |s|
    ensures forall i :: 0 <= i < |s| ==> t[i] == Lower(s[i])
  {
    if s == [] then [] else [Lower(s[0])] + LowerStr(s[1..])
  }

  lemma LowerIdempotent(c: char)
    ensures Lower(Lower(c)) == Lower(c)
  {
  }

  /** Folding twice is the same as folding once: a folded needle or field is
      already in the form the matcher compares. */
  lemma LowerStrIdempotent(s: string)
    ensures LowerStr(LowerStr(s)) == LowerStr(s)
  {
    var t := LowerStr(s);
    forall i | 0 <= i < |s|
      ensures LowerStr(t)[i] == t[i]
    {
      LowerIdempotent(s[i]);
    }
  }

  /** hay.includes(needle): true when needle sits at the front of hay, or
      somewhere in the rest of it. */
  predicate Includes(hay: string, needle: string)
    ensures Includes(hay, needle) ==> |needle| <= |hay|
    ensures |needle| <= |hay| && hay[..|needle|] == needle ==> Includes(hay, needle)
    decreases |hay|
  {
    (|needle| <= |hay| && hay[..|needle|] == needle)
    || (hay != [] && Includes(hay[1..], needle))
  }

  /** needle occurs in hay starting at position i. */
  ghost predicate OccursAt(hay: string, needle: string, i: int)
  {
    0 <= i && i + |needle| <= |hay| && hay[i..i + |needle|] == needle
  }

  /** Includes is exactly "there is a position at which needle occurs". */
  lemma {:induction false} IncludesIffOccurs(hay: string, needle: string)
    ensures Includes(hay, needle) <==> exists i :: OccursAt(hay, needle, i)
    decreases |hay|
  {
    if Includes(hay, needle) {
      if |needle| <= |hay| && hay[..|needle|] == needle {
        assert OccursAt(hay, needle, 0);
      } else {
        IncludesIffOccurs(hay[1..], needle);
        var i :| OccursAt(hay[1..], needle, i);
        assert hay[i + 1..i + 1 + |needle|] == hay[1..][i..i + |needle|];
        assert OccursAt(hay, needle, i + 1);
      }
    }
    if exists i :: OccursAt(hay, needle, i) {
      var i :| OccursAt(hay, needle, i);
      if i == 0 {
        assert hay[..|needle|] == needle;
      } else {
        assert hay[1..][i - 1..i - 1 + |needle|] == hay[i..i + |needle|];
        assert OccursAt(hay[1..], needle, i - 1);
        IncludesIffOccurs(hay[1..], needle);
      }
    }
  }

  /** The empty needle occurs in every string. */
  lemma EmptyNeedleIncluded(hay: string)
    ensures Includes(hay, "")
  {
  }

  /** A needle whose first character appears nowhere in hay is not included in it. */
  lemma {:induction false} FirstCharMissingExcludes(hay: string, needle: string)
    requires needle != [] && needle[0] !in hay
    ensures !Includes(hay, needle)
    decreases |hay|
  {
    if hay != [] {
      assert hay[0] != needle[0];
      FirstCharMissingExcludes(hay[1..], needle);
    }
  }
}
