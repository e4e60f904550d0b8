/** ASCII versions of the three Python string methods the program relies on:
    `str.strip()`, `str.lower()` and `str.upper()`. */
module Text {

  /** The ASCII characters Python's `str.isspace` accepts, which are the ones
      `str.strip()` removes: tab, line feed, vertical tab, form feed, carriage
      return, the four information separators 0x1C..0x1F, and space. */
  predicate IsSpace(c: char) {
    c == ' ' || ('\t' <= c <= '\r') || ('\U{1C}' <= c <= '\U{1F}')
  }

  predicate AllSpace(s: string) {
    forall k :: 0 <= k < |s| ==> IsSpace(s[k])
  }

  /** Every character of `s` outside the index range `[i, j)` is whitespace. */
  ghost predicate SpaceOutside(s: string, i: int, j: int) {
    forall k :: 0 <= k < |s| && !(i <= k < j) ==> IsSpace(s[k])
  }

  /** Neither the first nor the last character is whitespace. */
  predicate Tight(s: string) {
    s == [] || (!IsSpace(s[0]) && !IsSpace(s[|s| - 1]))
  }

  /** `r` is what is left of `s` after removing the whitespace run at each
      end: a tight slice of `s` with only whitespace around it. */
  ghost predicate IsTrimOf(r: string, s: string) {
    Tight(r) && exists i, j :: 0 <= i <= j <= |s| && r == s[i..j] && SpaceOutside(s, i, j)
  }

  /** Python's `s.strip()` restricted to ASCII whitespace: drop leading,
      then trailing, whitespace one character at a time. */
  function Trim(s: string): (r: string)
    ensures |r| <= |s| && Tight(r)
    decreases |s|
  {
    if |s| > 0 && IsSpace(s[0]) then Trim(s[1..])
    else if |s| > 0 && IsSpace(s[|s| - 1]) then Trim(s[..|s| - 1])
    else s
  }

  /** `Trim` removes exactly the whitespace run at each end. */
  lemma {:induction false} TrimIsTrimOf(s: string)
    ensures IsTrimOf(Trim(s), s)
    decreases |s|
  {
    if |s| > 0 && IsSpace(s[0]) {
      TrimIsTrimOf(s[1..]);
      TrimOfLeadingSpace(Trim(s), s);
    } else if |s| > 0 && IsSpace(s[|s| - 1]) {
      TrimIsTrimOf(s[..|s| - 1]);
      TrimOfTrailingSpace(Trim(s), s);
    } else {
      assert s[0..|s|] == s && SpaceOutside(s, 0, |s|);
    }
  }

  lemma TrimOfLeadingSpace(r: string, s: string)
    requires |s| > 0 && IsSpace(s[0]) && IsTrimOf(r, s[1..])
    ensures IsTrimOf(r, s)
  {
    var t := s[1..];
    var i, j :| 0 <= i <= j <= |t| && r == t[i..j] && SpaceOutside(t, i, j);
    assert s[i + 1..j + 1] == r;
    assert SpaceOutside(s, i + 1, j + 1) by {
      forall k | 0 < k < |s| && !(i + 1 <= k < j + 1) ensures IsSpace(s[k]) {
        assert s[k] == t[k - 1];
      }
    }
  }

  lemma TrimOfTrailingSpace(r: string, s: string)
    requires |s| > 0 && IsSpace(s[|s| - 1]) && IsTrimOf(r, s[..|s| - 1])
    ensures IsTrimOf(r, s)
  {
    var t := s[..|s| - 1];
    var i, j :| 0 <= i <= j <= |t| && r == t[i..j] && SpaceOutside(t, i, j);
    assert s[i..j] == r;
    assert SpaceOutside(s, i, j) by {
      forall k | 0 <= k < |s| - 1 && !(i <= k < j) ensures IsSpace(s[k]) {
        assert s[k] == t[k];
      }
    }
  }

  /** A non-whitespace character of `s` lies inside a range with only
      whitespace around it. */
  lemma NonSpaceInside(s: string, i: int, j: int, k: nat)
    requires k < |s| && SpaceOutside(s, i, j) && !IsSpace(s[k])
    ensures i <= k < j
  {
  }

  /** Two tight slices of `s` with only whitespace around them are equal. */
  lemma SameBounds(s: string, i: nat, j: nat, i': nat, j': nat)
    requires i <= j <= |s| && i' <= j' <= |s|
    requires Tight(s[i..j]) && Tight(s[i'..j'])
    requires SpaceOutside(s, i, j) && SpaceOutside(s, i', j')
    ensures s[i..j] == s[i'..j']
  {
    if i < j {
      assert s[i] == s[i..j][0];
      assert s[j - 1] == s[i..j][j - 1 - i];
      NonSpaceInside(s, i', j', i);
      NonSpaceInside(s, i', j', j - 1);
    }
    if i' < j' {
      assert s[i'] == s[i'..j'][0];
      assert s[j' - 1] == s[i'..j'][j' - 1 - i'];
      NonSpaceInside(s, i, j, i');
      NonSpaceInside(s, i, j, j' - 1);
    }
  }

  /** A string has at most one trimmed form. */
  lemma TrimOfUnique(r: string, t: string, s: string)
    requires IsTrimOf(r, s) && IsTrimOf(t, s)
    ensures r == t
  {
    var i, j :| 0 <= i <= j <= |s| && r == s[i..j] && SpaceOutside(s, i, j);
    var i', j' :| 0 <= i' <= j' <= |s| && t == s[i'..j'] && SpaceOutside(s, i', j');
    SameBounds(s, i, j, i', j');
  }

  /** Whitespace split around a tight middle determines the trimmed string:
      `IsTrimOf` has exactly one solution, and `Trim` computes it. */
  lemma TrimUnique(r: string, s: string)
    requires IsTrimOf(r, s)
    ensures Trim(s) == r
  {
    TrimIsTrimOf(s);
    TrimOfUnique(Trim(s), r, s);
  }

  /** `strip()` twice is `strip()` once. */
  lemma TrimIdempotent(s: string)
    ensures Trim(Trim(s)) == Trim(s)
  {
    var t := Trim(s);
    TrimIsTrimOf(s);
    assert t[0..|t|] == t && SpaceOutside(t, 0, |t|);
    TrimUnique(t, t);
  }

  /** Whitespace added around a string is removed again by `strip()`. */
  lemma TrimIgnoresOuterSpace(p: string, s: string, q: string)
    requires AllSpace(p) && AllSpace(q)
    ensures Trim(p + s + q) == Trim(s)
  {
    TrimIsTrimOf(s);
    TrimOfWidened(p, s, q, Trim(s));
    TrimUnique(Trim(s), p + s + q);
  }

  /** The trimmed form of `s` is also the trimmed form of `s` with
      whitespace added around it. */
  lemma TrimOfWidened(p: string, s: string, q: string, t: string)
    requires AllSpace(p) && AllSpace(q) && IsTrimOf(t, s)
    ensures IsTrimOf(t, p + s + q)
  {
    var i, j :| 0 <= i <= j <= |s| && t == s[i..j] && SpaceOutside(s, i, j);
    SpaceOutsideWidened(p, s, q, i, j);
    TrimOfAt(t, p + s + q, |p| + i, |p| + j);
  }

  /** Whitespace added around `s` keeps the slice `[i, j)` with only
      whitespace around it, shifted by the added prefix. */
  lemma SpaceOutsideWidened(p: string, s: string, q: string, i: nat, j: nat)
    requires AllSpace(p) && AllSpace(q) && i <= j <= |s| && SpaceOutside(s, i, j)
    ensures (p + s + q)[|p| + i..|p| + j] == s[i..j]
    ensures SpaceOutside(p + s + q, |p| + i, |p| + j)
  {
    var u := p + s + q;
    assert u[|p| + i..|p| + j] == s[i..j];
    forall k | 0 <= k < |u| && !(|p| + i <= k < |p| + j) ensures IsSpace(u[k]) {
      if k < |p| {
        assert u[k] == p[k];
      } else if k < |p| + |s| {
        assert u[k] == s[k - |p|];
      } else {
        assert u[k] == q[k - |p| - |s|];
      }
    }
  }

  /** `strip()` yields the empty string exactly for all-whitespace input. */
  lemma TrimEmptyIff(s: string)
    ensures Trim(s) == [] <==> AllSpace(s)
  {
    if AllSpace(s) {
      assert s[0..0] == [] && SpaceOutside(s, 0, 0);
      TrimUnique([], s);
    } else {
      var t := Trim(s);
      TrimIsTrimOf(s);
      var i, j :| 0 <= i <= j <= |s| && t == s[i..j] && SpaceOutside(s, i, j);
      var k :| 0 <= k < |s| && !IsSpace(s[k]);
      NonSpaceInside(s, i, j, k);
    }
  }

  function LowerChar(c: char): char {
    if 'A' <= c <= 'Z' then (c as int + 32) as char else c
  }

  function UpperChar(c: char): char {
    if 'a' <= c <= 'z' then (c as int - 32) as char else c
  }

  /** Python's `s.lower()` on ASCII letters; every other character is kept. */
  function Lower(s: string): (r: string)
    ensures |r| == |s|
    ensures forall i :: 0 <= i < |s| ==> r[i] == LowerChar(s[i])
  {
    if s == [] then [] else [LowerChar(s[0])] + Lower(s[1..])
  }

  /** Python's `s.upper()` on ASCII letters; every other character is kept. */
  function Upper(s: string): (r: string)
    ensures |r| == |s|
    ensures forall i :: 0 <= i < |s| ==> r[i] == UpperChar(s[i])
  {
    if s == [] then [] else [UpperChar(s[0])] + Upper(s[1..])
  }

  lemma CaseFoldsAgreeOnChars(a: char, b: char)
    ensures LowerChar(a) == LowerChar(b) <==> UpperChar(a) == UpperChar(b)
  {
  }

  /** Lower-casing and upper-casing identify the same pairs of strings, so
      comparing names through `lower()` and staff numbers through `upper()`
      both mean "equal ignoring ASCII case". */
  lemma CaseFoldsAgree(a: string, b: string)
    ensures Lower(a) == Lower(b) <==> Upper(a) == Upper(b)
  {
    if |a| == |b| {
      forall i | 0 <= i < |a| ensures Lower(a)[i] == Lower(b)[i] <==> Upper(a)[i] == Upper(b)[i] {
        CaseFoldsAgreeOnChars(a[i], b[i]);
      }
      if Lower(a) != Lower(b) {
        var i :| 0 <= i < |a| && Lower(a)[i] != Lower(b)[i];
        assert Upper(a)[i] != Upper(b)[i];
      }
      if Upper(a) != Upper(b) {
        var i :| 0 <= i < |a| && Upper(a)[i] != Upper(b)[i];
        assert Lower(a)[i] != Lower(b)[i];
      }
    }
  }

  /** Lower-casing an upper-cased string is lower-casing the original. */
  lemma LowerOfUpper(s: string)
    ensures Lower(Upper(s)) == Lower(s)
  {
  }

  /** A tight slice with only whitespace around it is the trimmed form. */
  lemma TrimOfAt(r: string, s: string, i: nat, j: nat)
    requires i <= j <= |s| && r == s[i..j] && SpaceOutside(s, i, j) && Tight(r)
    ensures IsTrimOf(r, s)
  {
  }

  /** Case folding keeps every character's whitespace status. */
  lemma CaseKeepsSpace(c: char)
    ensures IsSpace(UpperChar(c)) == IsSpace(c) && IsSpace(LowerChar(c)) == IsSpace(c)
  {
  }

  /** A character map applied to a whole string and then sliced is the map
      applied to the slice. */
  lemma MapSlice(f: char -> char, s: string, r: string, i: nat, j: nat, w: string)
    requires i <= j <= |s| && |r| == |s| && |w| == j - i
    requires forall k :: 0 <= k < |s| ==> r[k] == f(s[k])
    requires forall k :: 0 <= k < j - i ==> w[k] == f(s[i..j][k])
    ensures r[i..j] == w
  {
    forall k | 0 <= k < j - i ensures r[i..j][k] == w[k] {
      assert s[i..j][k] == s[i + k];
    }
  }

  lemma UpperSlice(s: string, i: nat, j: nat)
    requires i <= j <= |s|
    ensures Upper(s)[i..j] == Upper(s[i..j])
  {
    MapSlice(UpperChar, s, Upper(s), i, j, Upper(s[i..j]));
  }

  lemma UpperKeepsSpaceOutside(s: string, i: nat, j: nat)
    requires SpaceOutside(s, i, j)
    ensures SpaceOutside(Upper(s), i, j)
  {
    forall k | 0 <= k < |s| && !(i <= k < j) ensures IsSpace(Upper(s)[k]) {
      CaseKeepsSpace(s[k]);
    }
  }

  lemma UpperKeepsTight(t: string)
    requires Tight(t)
    ensures Tight(Upper(t))
  {
    if t != [] {
      CaseKeepsSpace(t[0]);
      CaseKeepsSpace(t[|t| - 1]);
    }
  }

  lemma LowerSlice(s: string, i: nat, j: nat)
    requires i <= j <= |s|
    ensures Lower(s)[i..j] == Lower(s[i..j])
  {
    MapSlice(LowerChar, s, Lower(s), i, j, Lower(s[i..j]));
  }

  lemma LowerKeepsSpaceOutside(s: string, i: nat, j: nat)
    requires SpaceOutside(s, i, j)
    ensures SpaceOutside(Lower(s), i, j)
  {
    forall k | 0 <= k < |s| && !(i <= k < j) ensures IsSpace(Lower(s)[k]) {
      CaseKeepsSpace(s[k]);
    }
  }

  lemma LowerKeepsTight(t: string)
    requires Tight(t)
    ensures Tight(Lower(t))
  {
    if t != [] {
      CaseKeepsSpace(t[0]);
      CaseKeepsSpace(t[|t| - 1]);
    }
  }

  /** So it maps the trimmed form of a string to the trimmed form of its
      folding. */
  lemma UpperTrimOf(t: string, s: string)
    requires IsTrimOf(t, s)
    ensures IsTrimOf(Upper(t), Upper(s))
  {
    var i, j :| 0 <= i <= j <= |s| && t == s[i..j] && SpaceOutside(s, i, j);
    UpperSlice(s, i, j);
    UpperKeepsSpaceOutside(s, i, j);
    UpperKeepsTight(t);
    TrimOfAt(Upper(t), Upper(s), i, j);
  }

  lemma LowerTrimOf(t: string, s: string)
    requires IsTrimOf(t, s)
    ensures IsTrimOf(Lower(t), Lower(s))
  {
    var i, j :| 0 <= i <= j <= |s| && t == s[i..j] && SpaceOutside(s, i, j);
    LowerSlice(s, i, j);
    LowerKeepsSpaceOutside(s, i, j);
    LowerKeepsTight(t);
    TrimOfAt(Lower(t), Lower(s), i, j);
  }

  /** `strip()` and case folding commute. */
  lemma TrimCommutesWithCase(s: string)
    ensures Trim(Upper(s)) == Upper(Trim(s))
    ensures Trim(Lower(s)) == Lower(Trim(s))
  {
    TrimIsTrimOf(s);
    UpperTrimOf(Trim(s), s);
    TrimUnique(Upper(Trim(s)), Upper(s));
    LowerTrimOf(Trim(s), s);
    TrimUnique(Lower(Trim(s)), Lower(s));
  }

  lemma UpperIdempotent(s: string)
    ensures Upper(Upper(s)) == Upper(s)
  {
  }

  lemma LowerIdempotent(s: string)
    ensures Lower(Lower(s)) == Lower(s)
  {
  }

}
