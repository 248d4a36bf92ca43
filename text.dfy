/**
 * The string operations the handlers apply to user input: case mapping,
 * whitespace trimming and substring search. Case mapping covers the ASCII
 * letters only.
 */
module Text {

  predicate IsLowerAscii(c: char) { 'a' <= c <= 'z' }
  predicate IsUpperAscii(c: char) { 'A' <= c <= 'Z' }

  function UpperChar(c: char): (d: char)
    ensures !IsLowerAscii(d)
    ensures !IsLowerAscii(c) ==> d == c
    ensures IsLowerAscii(c) ==> IsUpperAscii(d) && d as int == c as int - 32
  {
    if IsLowerAscii(c) then (c as int - 'a' as int + 'A' as int) as char else c
  }

  function LowerChar(c: char): (d: char)
    ensures !IsUpperAscii(d)
    ensures !IsUpperAscii(c) ==> d == c
    ensures IsUpperAscii(c) ==> IsLowerAscii(d) && d as int == c as int + 32 && UpperChar(d) == c
  {
    if IsUpperAscii(c) then (c as int - 'A' as int + 'a' as int) as char else c
  }

  /**
   * `toUpperCase`: the same length, each character upper-cased in place, so no lower-case letter
   * is left and every other character is kept.
   */
  function Upper(s: string): (r: string)
    ensures |r| == |s|
    ensures forall i :: 0 <= i < |s| ==> r[i] == UpperChar(s[i])
    ensures forall i :: 0 <= i < |s| ==> !IsLowerAscii(r[i])
    ensures forall i :: 0 <= i < |s| && !IsLowerAscii(s[i]) ==> r[i] == s[i]
  {
    if s == [] then [] else [UpperChar(s[0])] + Upper(s[1..])
  }

  /**
   * `toLowerCase`: the same length, each character lower-cased in place, so no upper-case letter
   * is left and every other character is kept.
   */
  function Lower(s: string): (r: string)
    ensures |r| == |s|
    ensures forall i :: 0 <= i < |s| ==> r[i] == LowerChar(s[i])
    ensures forall i :: 0 <= i < |s| ==> !IsUpperAscii(r[i])
    ensures forall i :: 0 <= i < |s| && !IsUpperAscii(s[i]) ==> r[i] == s[i]
  {
    if s == [] then [] else [LowerChar(s[0])] + Lower(s[1..])
  }

  /** Upper-casing twice is upper-casing once. */
  lemma {:induction false} UpperIdempotent(s: string)
    ensures Upper(Upper(s)) == Upper(s)
  {
    var u := Upper(s);
    assert forall i :: 0 <= i < |u| ==> !IsLowerAscii(u[i]);
    UpperFixes(u);
  }

  /** Upper-casing a string that has no lower-case letter changes nothing. */
  lemma {:induction false} UpperFixes(s: string)
    requires forall i :: 0 <= i < |s| ==> !IsLowerAscii(s[i])
    ensures Upper(s) == s
  {
    if s != [] {
      assert forall i :: 0 <= i < |s[1..]| ==> !IsLowerAscii(s[1..][i]) by {
        forall i | 0 <= i < |s[1..]| ensures !IsLowerAscii(s[1..][i]) {
          assert s[1..][i] == s[i + 1];
        }
      }
      UpperFixes(s[1..]);
    }
  }

  /** Lower-casing then upper-casing restores a string that has no lower-case letter. */
  lemma {:induction false} UpperLowerRestores(s: string)
    requires forall i :: 0 <= i < |s| ==> !IsLowerAscii(s[i])
    ensures Upper(Lower(s)) == s
  {
    if s != [] {
      var c, t := s[0], s[1..];
      assert s == [c] + t;
      assert forall i :: 0 <= i < |t| ==> t[i] == s[i + 1];
      UpperLowerRestores(t);
      LowerCons(c, t);
      UpperCons(LowerChar(c), Lower(t));
      UpperLowerChar(c);
    }
  }

  lemma UpperLowerChar(c: char)
    requires !IsLowerAscii(c)
    ensures UpperChar(LowerChar(c)) == c
  {
  }

  lemma LowerCons(c: char, s: string)
    ensures Lower([c] + s) == [LowerChar(c)] + Lower(s)
  {
    assert ([c] + s)[1..] == s;
  }

  lemma UpperCons(c: char, s: string)
    ensures Upper([c] + s) == [UpperChar(c)] + Upper(s)
  {
    assert ([c] + s)[1..] == s;
  }

  /** The white-space and line-terminator characters `trim` removes. */
  predicate IsSpace(c: char)
  {
    || c == '\t' || c == '\n' || c == '\U{000B}' || c == '\U{000C}' || c == '\r' || c == ' '
    || c == '\U{00A0}' || c == '\U{1680}' || ('\U{2000}' <= c <= '\U{200A}')
    || c == '\U{2028}' || c == '\U{2029}' || c == '\U{202F}' || c == '\U{205F}'
    || c == '\U{3000}' || c == '\U{FEFF}'
  }

  function TrimStart(s: string): (r: string)
    ensures |r| <= |s| && r == s[|s| - |r|..]
    ensures r == [] || !IsSpace(r[0])
    ensures forall i :: 0 <= i < |s| - |r| ==> IsSpace(s[i])
  {
    if s != [] && IsSpace(s[0]) then TrimStart(s[1..]) else s
  }

  function TrimEnd(s: string): (r: string)
    ensures |r| <= |s| && r == s[..|r|]
    ensures r == [] || !IsSpace(r[|r| - 1])
    ensures forall i :: |r| <= i < |s| ==> IsSpace(s[i])
  {
    if s != [] && IsSpace(s[|s| - 1]) then TrimEnd(s[..|s| - 1]) else s
  }

  /**
   * `trim`: the result is a slice s[a..b] of the input with no white space at either end,
   * and everything cut off is white space.
   */
  function Trim(s: string): (r: string)
    ensures exists a, b :: 0 <= a <= b <= |s| && r == s[a..b]
                           && (forall i :: 0 <= i < a ==> IsSpace(s[i]))
                           && (forall i :: b <= i < |s| ==> IsSpace(s[i]))
    ensures r == [] || (!IsSpace(r[0]) && !IsSpace(r[|r| - 1]))
  {
    var t := TrimStart(s);
    var r := TrimEnd(t);
    TrimSlice(s, t, r);
    r
  }

  /** Cutting white space off the front, then off the back, leaves a slice with white space all around it. */
  lemma TrimSlice(s: string, t: string, r: string)
    requires |t| <= |s| && t == s[|s| - |t|..] && forall i :: 0 <= i < |s| - |t| ==> IsSpace(s[i])
    requires |r| <= |t| && r == t[..|r|] && forall i :: |r| <= i < |t| ==> IsSpace(t[i])
    requires t == [] || !IsSpace(t[0])
    requires r == [] || !IsSpace(r[|r| - 1])
    ensures r == [] || (!IsSpace(r[0]) && !IsSpace(r[|r| - 1]))
    ensures exists a, b :: 0 <= a <= b <= |s| && r == s[a..b]
                           && (forall i :: 0 <= i < a ==> IsSpace(s[i]))
                           && (forall i :: b <= i < |s| ==> IsSpace(s[i]))
  {
    var a := |s| - |t|;
    var b := a + |r|;
    if r != [] {
      assert r[0] == t[0];
    }
    assert forall i :: 0 <= i < |t| ==> t[i] == s[a + i];
    assert r == s[a..b];
    assert forall i :: b <= i < |s| ==> IsSpace(s[i]) by {
      forall i | b <= i < |s| ensures IsSpace(s[i]) {
        assert IsSpace(t[i - a]);
      }
    }
  }

  /** `t` occurs in `s` starting at index `i`. */
  predicate OccursAt(s: string, t: string, i: nat)
  {
    i + |t| <= |s| && s[i..i + |t|] == t
  }

  /** `includes`: `t` occurs somewhere in `s` as a contiguous slice. */
  predicate Contains(s: string, t: string)
  {
    exists i: nat :: i <= |s| && OccursAt(s, t, i)
  }

  /** `substring(start, end)` with both bounds clamped to the string, as JavaScript does. */
  function Substring(s: string, start: nat, end: nat): (r: string)
    ensures |r| <= |s| && |r| <= if end >= start then end - start else start - end
    ensures start <= end <= |s| ==> r == s[start..end]
    ensures end <= start <= |s| ==> r == s[end..start]
    ensures start <= |s| <= end ==> r == s[start..]
    ensures end <= |s| <= start ==> r == s[end..]
    ensures |s| <= start && |s| <= end ==> r == []
  {
    var lo := if start < end then start else end;
    var hi := if start < end then end else start;
    var lo' := if lo < |s| then lo else |s|;
    var hi' := if hi < |s| then hi else |s|;
    s[lo'..hi']
  }
}
