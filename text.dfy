/**
 * The string operations the search filter relies on, at ASCII level:
 * lower-casing, trimming whitespace at both ends, and substring search.
 */
module Text {

  predicate IsUpper(c: char) {
    'A' <= c <= 'Z'
  }

  /** Whitespace trimmed by `trim`: space, tab, line feed, vertical tab, form feed, carriage return. */
  predicate IsSpace(c: char) {
    c == ' ' || c == '\t' || c == '\n' || c == '\U{B}' || c == '\U{C}' || c == '\r'
  }

  function LowerChar(c: char): (d: char)
    ensures !IsUpper(d)
    ensures IsUpper(c) ==> d as int == c as int + 32
    ensures !IsUpper(c) ==> d == c
  {
    if IsUpper(c) then (c as int + 32) as char else c
  }

  /** `toLowerCase`, restricted to the ASCII letters. */
  function Lower(s: string): (r: string)
    ensures |r| == |s|
    ensures forall i :: 0 <= i < |s| ==> r[i] == LowerChar(s[i])
  {
    if s == [] then [] else [LowerChar(s[0])] + Lower(s[1..])
  }

  /** Lower-casing keeps whitespace where it was. */
  lemma LowerKeepsSpace(s: string)
    ensures forall i :: 0 <= i < |s| ==> (IsSpace(Lower(s)[i]) <==> IsSpace(s[i]))
  {
  }

  function TrimStart(s: string): (r: string)
    ensures |r| <= |s| && r == s[|s| - |r|..]
    ensures r != [] ==> !IsSpace(r[0])
    ensures forall i :: 0 <= i < |s| - |r| ==> IsSpace(s[i])
  {
    if s != [] && IsSpace(s[0]) then TrimStart(s[1..]) else s
  }

  function TrimEnd(s: string): (r: string)
    ensures |r| <= |s| && r == s[..|r|]
    ensures r != [] ==> !IsSpace(r[|r| - 1])
    ensures forall i :: |r| <= i < |s| ==> IsSpace(s[i])
  {
    if s != [] && IsSpace(s[|s| - 1]) then TrimEnd(s[..|s| - 1]) else s
  }

  /**
   * `r` is `s` with a run of whitespace removed before position `k` and
   * another after `r`: `r` occurs in `s` at `k`, and everything outside it
   * is whitespace.
   */
  ghost predicate TrimmedAt(s: string, r: string, k: int) {
    OccursAt(s, r, k)
    && (forall i :: 0 <= i < k ==> IsSpace(s[i]))
    && (forall i :: k + |r| <= i < |s| ==> IsSpace(s[i]))
  }

  /**
   * `trim`: the input with its leading and trailing whitespace removed and
   * nothing else. The result is empty exactly when the input is all
   * whitespace, and otherwise starts and ends with a non-whitespace character.
   */
  function Trim(s: string): (r: string)
    ensures exists k :: TrimmedAt(s, r, k)
    ensures r == [] <==> forall i :: 0 <= i < |s| ==> IsSpace(s[i])
    ensures r != [] ==> !IsSpace(r[0]) && !IsSpace(r[|r| - 1])
  {
    TrimEndAfterStart(s);
    TrimEnd(TrimStart(s))
  }

  /** Trimming the end of the start-trimmed string leaves a piece of `s` with only whitespace around it. */
  lemma TrimEndAfterStart(s: string)
    ensures TrimmedAt(s, TrimEnd(TrimStart(s)), |s| - |TrimStart(s)|)
  {
    var t := TrimStart(s);
    var r := TrimEnd(t);
    var k := |s| - |t|;
    assert r == t[..|r|] && t == s[k..];
    assert s[k..k + |r|] == r by {
      forall i | 0 <= i < |r| ensures s[k + i] == r[i] {
        assert r[i] == t[i];
      }
    }
    assert OccursAt(s, r, k);
    forall i | k + |r| <= i < |s| ensures IsSpace(s[i]) {
      assert IsSpace(t[i - k]);
    }
  }

  /** Trimming a string without upper-case letters leaves none. */
  lemma TrimKeepsNoUpper(s: string)
    requires forall i :: 0 <= i < |s| ==> !IsUpper(s[i])
    ensures forall i :: 0 <= i < |Trim(s)| ==> !IsUpper(Trim(s)[i])
  {
    var r := Trim(s);
    var k :| TrimmedAt(s, r, k);
    forall i | 0 <= i < |r| ensures !IsUpper(r[i]) {
      assert r[i] == s[k + i];
    }
  }

  /** `needle` starts `hay`. */
  predicate IsPrefix(needle: string, hay: string) {
    |needle| <= |hay| && hay[..|needle|] == needle
  }

  /** `needle` occurs in `hay` starting at position `i`. */
  predicate OccursAt(hay: string, needle: string, i: int) {
    0 <= i <= |hay| - |needle| && hay[i..i + |needle|] == needle
  }

  /** `needle` occurs somewhere in `hay`. */
  ghost predicate Occurs(hay: string, needle: string) {
    exists i :: OccursAt(hay, needle, i)
  }

  /** Past a first position that does not start `needle`, the occurrences are those in the rest. */
  lemma ShiftOccurrence(hay: string, needle: string)
    requires hay != [] && !IsPrefix(needle, hay)
    ensures Occurs(hay, needle) <==> Occurs(hay[1..], needle)
  {
    if exists i :: OccursAt(hay[1..], needle, i) {
      var i :| OccursAt(hay[1..], needle, i);
      assert hay[i + 1..i + 1 + |needle|] == hay[1..][i..i + |needle|];
      assert OccursAt(hay, needle, i + 1);
    }
    if exists i :: OccursAt(hay, needle, i) {
      var i :| OccursAt(hay, needle, i);
      assert i != 0;
      assert hay[1..][i - 1..i - 1 + |needle|] == hay[i..i + |needle|];
      assert OccursAt(hay[1..], needle, i - 1);
    }
  }

  /**
   * `hay.includes(needle)`, scanning start positions left to right: it
   * holds exactly when `needle` occurs at some position of `hay`.
   */
  function Contains(hay: string, needle: string): (b: bool)
    ensures b <==> Occurs(hay, needle)
    decreases |hay|
  {
    if IsPrefix(needle, hay) then
      assert OccursAt(hay, needle, 0);
      true
    else if hay == [] then
      false
    else
      ShiftOccurrence(hay, needle);
      Contains(hay[1..], needle)
  }

  /** Every string contains the empty string. */
  lemma ContainsEmpty(hay: string)
    ensures Contains(hay, "")
  {
    assert IsPrefix("", hay);
  }
}
