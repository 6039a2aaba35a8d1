/** The Python string operations the ingester relies on: `split`, `join`,
    `replace(pat, "")`, `find` and `int()`, with their defining properties. */
module Text {
  import opened Common

  /** `pat` occurs in `s` starting at index `i`. */
  predicate OccursAt(s: string, pat: string, i: int) {
    0 <= i && i + |pat| <= |s| && s[i..i + |pat|] == pat
  }

  predicate Contains(s: string, pat: string) {
    exists i :: 0 <= i <= |s| && OccursAt(s, pat, i)
  }

  /** Python's `s.split(sep)` for a non-empty separator: cuts at every
      occurrence, scanning left to right without overlaps. */
  function Split(s: string, sep: string): (parts: seq<string>)
    requires sep != []
    ensures |parts| >= 1
    decreases |s|
  {
    if |s| < |sep| then [s]
    else if s[..|sep|] == sep then [[]] + Split(s[|sep|..], sep)
    else
      var rest := Split(s[1..], sep);
      [[s[0]] + rest[0]] + rest[1..]
  }

  /** Python's `sep.join(parts)`. */
  function Join(parts: seq<string>, sep: string): string
    decreases |parts|
  {
    if |parts| == 0 then []
    else if |parts| == 1 then parts[0]
    else parts[0] + sep + Join(parts[1..], sep)
  }

  function Last<T>(s: seq<T>): T
    requires |s| > 0
  {
    s[|s| - 1]
  }

  /** A join starts with the first part and ends with the last. */
  lemma {:induction false} JoinEnds(parts: seq<string>, sep: string)
    requires |parts| > 0
    ensures var r := Join(parts, sep);
      |parts[0]| <= |r| && r[..|parts[0]|] == parts[0] &&
      |Last(parts)| <= |r| && r[|r| - |Last(parts)|..] == Last(parts)
    decreases |parts|
  {
    if |parts| > 1 {
      var rest := Join(parts[1..], sep);
      JoinEnds(parts[1..], sep);
      assert Last(parts[1..]) == Last(parts);
      assert Join(parts, sep) == parts[0] + sep + rest;
    }
  }

  /** With two parts or more, the last part of a join follows a separator. */
  lemma {:induction false} JoinLastSeparator(parts: seq<string>, sep: string)
    ensures var r := Join(parts, sep);
      |parts| > 1 ==>
        |sep| + |Last(parts)| <= |r| && r[|r| - |Last(parts)| - |sep|..|r| - |Last(parts)|] == sep
    decreases |parts|
  {
    if |parts| > 1 {
      var rest := Join(parts[1..], sep);
      assert Join(parts, sep) == parts[0] + sep + rest;
      assert Last(parts[1..]) == Last(parts);
      if |parts| == 2 {
        assert rest == Last(parts);
      } else {
        JoinLastSeparator(parts[1..], sep);
      }
    }
  }

  /** Python's `path.split("/")[-1]`: the part of the path after its last
      `/`, or the whole path when it holds none. */
  function LastComponent(path: string): (name: string)
    ensures !Contains(name, "/")
    ensures |name| <= |path| && name == path[|path| - |name|..]
    ensures name == path || (|name| < |path| && path[|path| - |name| - 1] == '/')
  {
    LastPiece(path, "/");
    Last(Split(path, "/"))
  }

  /** The last piece of a split by a one-character separator is the part
      after the last separator, or the whole string when it holds none. */
  lemma LastPiece(s: string, sep: string)
    requires |sep| == 1
    ensures var last := Last(Split(s, sep));
      !Contains(last, sep) && |last| <= |s| && last == s[|s| - |last|..] &&
      (last == s || (|last| + 1 <= |s| && s[|s| - |last| - 1..|s| - |last|] == sep))
  {
    var parts := Split(s, sep);
    JoinSplit(s, sep);
    JoinEnds(parts, sep);
    SplitPiecesFree(s, sep);
    JoinLastSeparator(parts, sep);
    assert Join(parts, sep) == s;
    assert !Contains(parts[|parts| - 1], sep);
  }

  /** Joining the pieces of a split with the same separator gives back the string. */
  lemma {:induction false} JoinSplit(s: string, sep: string)
    requires sep != []
    ensures Join(Split(s, sep), sep) == s
    decreases |s|
  {
    if |s| < |sep| {
    } else if s[..|sep|] == sep {
      var rest := Split(s[|sep|..], sep);
      JoinSplit(s[|sep|..], sep);
      assert Split(s, sep) == [[]] + rest;
      assert ([[]] + rest)[1..] == rest;
      assert s == s[..|sep|] + s[|sep|..];
    } else {
      var rest := Split(s[1..], sep);
      JoinSplit(s[1..], sep);
      assert Split(s, sep) == [[s[0]] + rest[0]] + rest[1..];
      JoinCons(s[0], rest, sep);
      assert s == [s[0]] + s[1..];
    }
  }

  /** Gluing a character onto the first part glues it onto the join. */
  lemma JoinCons(c: char, parts: seq<string>, sep: string)
    requires |parts| > 0
    ensures Join([[c] + parts[0]] + parts[1..], sep) == [c] + Join(parts, sep)
  {
    var glued := [[c] + parts[0]] + parts[1..];
    if |parts| > 1 {
      assert glued[1..] == parts[1..];
      assert Join(glued, sep) == ([c] + parts[0]) + sep + Join(parts[1..], sep);
    } else {
      assert glued == [[c] + parts[0]];
    }
  }

  /** The first piece of a split is a prefix of the string. */
  lemma {:induction false} SplitHeadIsPrefix(s: string, sep: string)
    requires sep != []
    ensures Split(s, sep)[0] <= s
    decreases |s|
  {
    if |s| >= |sep| && s[..|sep|] != sep {
      SplitHeadIsPrefix(s[1..], sep);
      var h := Split(s[1..], sep)[0];
      assert Split(s, sep)[0] == [s[0]] + h;
      assert h == s[1..][..|h|];
      assert [s[0]] + h == s[..1 + |h|];
    }
  }

  /** A character followed by a separator-free prefix of the rest stays
      separator-free when the string does not start with the separator. */
  lemma ConsFree(s: string, sep: string, h: string)
    requires sep != [] && |s| >= 1 && !OccursAt(s, sep, 0)
    requires h <= s && |h| >= 1 && !Contains(h[1..], sep)
    ensures !Contains(h, sep)
  {
    forall i | 0 <= i <= |h| ensures !OccursAt(h, sep, i) {
      if i == 0 {
        if |sep| <= |h| {
          assert h[..|sep|] == s[..|sep|];
        }
      } else if i + |sep| <= |h| {
        var tail := h[1..];
        var shifted, window := tail[i - 1..i - 1 + |sep|], h[i..i + |sep|];
        forall j | 0 <= j < |sep| ensures shifted[j] == window[j] {
          assert tail[i - 1 + j] == h[i + j];
        }
        assert shifted == window;
        assert !OccursAt(tail, sep, i - 1);
      }
    }
  }

  /** No piece of a split contains the separator. */
  lemma {:induction false} SplitPiecesFree(s: string, sep: string)
    requires sep != []
    ensures forall k :: 0 <= k < |Split(s, sep)| ==> !Contains(Split(s, sep)[k], sep)
    decreases |s|
  {
    var parts := Split(s, sep);
    if |s| < |sep| {
      assert parts == [s];
    } else if s[..|sep|] == sep {
      var rest := Split(s[|sep|..], sep);
      SplitPiecesFree(s[|sep|..], sep);
      assert parts == [[]] + rest;
      forall k | 1 <= k < |parts| ensures !Contains(parts[k], sep) {
        assert parts[k] == rest[k - 1];
      }
    } else {
      var rest := Split(s[1..], sep);
      SplitPiecesFree(s[1..], sep);
      var h := [s[0]] + rest[0];
      assert parts == [h] + rest[1..];
      SplitHeadIsPrefix(s, sep);
      assert h[1..] == rest[0];
      ConsFree(s, sep, h);
      forall k | 1 <= k < |parts| ensures !Contains(parts[k], sep) {
        assert parts[k] == rest[k];
      }
    }
  }

  /** A string without the separator splits into itself alone. */
  lemma {:induction false} SplitWithoutSeparator(s: string, sep: string)
    requires sep != [] && !Contains(s, sep)
    ensures Split(s, sep) == [s]
    decreases |s|
  {
    if |s| >= |sep| {
      assert !OccursAt(s, sep, 0);
      forall i ensures !OccursAt(s[1..], sep, i) {
        assert OccursAt(s[1..], sep, i) ==> OccursAt(s, sep, i + 1) by {
          if OccursAt(s[1..], sep, i) {
            assert s[1..][i..i + |sep|] == s[i + 1..i + 1 + |sep|];
          }
        }
      }
      SplitWithoutSeparator(s[1..], sep);
      assert s == [s[0]] + s[1..];
    }
  }

  /** A split yields one piece exactly when the separator does not occur. */
  lemma SplitSingle(s: string, sep: string)
    requires sep != []
    ensures |Split(s, sep)| == 1 <==> !Contains(s, sep)
  {
    if |Split(s, sep)| == 1 {
      JoinSplit(s, sep);
      SplitPiecesFree(s, sep);
    }
    if !Contains(s, sep) {
      SplitWithoutSeparator(s, sep);
    }
  }

  /** A split into exactly two pieces is `key + sep + value` with neither part holding `sep`. */
  lemma SplitPair(s: string, sep: string)
    requires sep != [] && |Split(s, sep)| == 2
    ensures var parts := Split(s, sep);
      s == parts[0] + sep + parts[1] && !Contains(parts[0], sep) && !Contains(parts[1], sep)
  {
    var parts := Split(s, sep);
    JoinSplit(s, sep);
    SplitPiecesFree(s, sep);
    assert parts[1..] == [parts[1]];
  }

  /** `(p + sep + f).split(sep)[-1] == f` for a one-character separator
      and an `f` that does not contain it. */
  lemma {:induction false} SplitLast(p: string, sep: string, f: string)
    requires |sep| == 1 && !Contains(f, sep)
    ensures |Split(p + sep + f, sep)| >= 2 && Last(Split(p + sep + f, sep)) == f
    decreases |p|
  {
    var s := p + sep + f;
    if |p| == 0 {
      assert s[..1] == sep && s[1..] == f;
      SplitWithoutSeparator(f, sep);
    } else {
      assert s[1..] == p[1..] + sep + f;
      SplitLast(p[1..], sep, f);
    }
  }

  /** Dropping the first character cannot create an occurrence. */
  lemma NotContainsTail(k: string, sep: string)
    requires |k| > 0 && !Contains(k, sep)
    ensures !Contains(k[1..], sep)
  {
    forall i | 0 <= i <= |k| - 1 ensures !OccursAt(k[1..], sep, i) {
      if i + |sep| <= |k| - 1 {
        assert k[1..][i..i + |sep|] == k[i + 1..i + 1 + |sep|];
        assert !OccursAt(k, sep, i + 1);
      }
    }
  }

  /** `(a + sep + rest).split(sep)` is `[a] + rest.split(sep)` for a
      one-character separator that `a` does not contain. */
  lemma {:induction false} SplitFirst(a: string, sep: string, rest: string)
    requires |sep| == 1 && !Contains(a, sep)
    ensures Split(a + sep + rest, sep) == [a] + Split(rest, sep)
    decreases |a|
  {
    var s := a + sep + rest;
    if |a| == 0 {
      assert s[..1] == sep && s[1..] == rest;
    } else {
      assert !OccursAt(a, sep, 0);
      assert s[..1] == a[..1];
      NotContainsTail(a, sep);
      assert s[1..] == a[1..] + sep + rest;
      SplitFirst(a[1..], sep, rest);
      assert [s[0]] + a[1..] == a;
    }
  }

  /** Python's `s.replace(pat, "")`: deletes the occurrences found scanning left to right. */
  function RemoveAll(s: string, pat: string): (r: string)
    requires pat != []
    ensures |r| <= |s|
    decreases |s|
  {
    if |s| < |pat| then s
    else if s[..|pat|] == pat then RemoveAll(s[|pat|..], pat)
    else [s[0]] + RemoveAll(s[1..], pat)
  }

  /** `s.replace(pat, "")` is `"".join(s.split(pat))`. */
  lemma {:induction false} RemoveAllIsJoinOfSplit(s: string, pat: string)
    requires pat != []
    ensures RemoveAll(s, pat) == Join(Split(s, pat), [])
    decreases |s|
  {
    if |s| < |pat| {
    } else if s[..|pat|] == pat {
      var rest := Split(s[|pat|..], pat);
      RemoveAllIsJoinOfSplit(s[|pat|..], pat);
      assert Split(s, pat) == [[]] + rest;
      assert ([[]] + rest)[1..] == rest;
    } else {
      var rest := Split(s[1..], pat);
      RemoveAllIsJoinOfSplit(s[1..], pat);
      var parts := Split(s, pat);
      assert parts == [[s[0]] + rest[0]] + rest[1..];
      if |rest| > 1 {
        assert parts[1..] == rest[1..];
        assert Join(rest, []) == rest[0] + [] + Join(rest[1..], []);
      }
    }
  }

  /** Removing a pattern that never occurs changes nothing. */
  lemma RemoveAbsent(s: string, pat: string)
    requires pat != [] && !Contains(s, pat)
    ensures RemoveAll(s, pat) == s
  {
    RemoveAllIsJoinOfSplit(s, pat);
    SplitWithoutSeparator(s, pat);
  }

  function FindFrom(s: string, pat: string, i: nat): (r: int)
    ensures r == -1 ==> forall j :: i <= j ==> !OccursAt(s, pat, j)
    ensures r != -1 ==> i <= r && OccursAt(s, pat, r) && forall j :: i <= j < r ==> !OccursAt(s, pat, j)
    decreases |s| + 1 - i
  {
    if i + |pat| > |s| then -1
    else if OccursAt(s, pat, i) then i
    else FindFrom(s, pat, i + 1)
  }

  /** Python's `s.find(pat)`: the lowest index of an occurrence, or -1. */
  function Find(s: string, pat: string): (r: int)
    ensures r == -1 <==> !Contains(s, pat)
    ensures r != -1 ==> 0 <= r && OccursAt(s, pat, r) && forall j :: 0 <= j < r ==> !OccursAt(s, pat, j)
  {
    FindFrom(s, pat, 0)
  }

  /** `s.find(pat) > 0`: the pattern occurs, but not at the very start. */
  lemma FindPositive(s: string, pat: string)
    ensures Find(s, pat) > 0 <==> Contains(s, pat) && !OccursAt(s, pat, 0)
  {
  }

  // ---- int() on decimal text, and its inverse for the counts the load stage writes ----

  /** The ASCII characters `int()` strips: space, `\t` to `\r`, and the
      separators `\x1c` to `\x1f`. */
  predicate IsSpace(c: char) {
    c == ' ' || 9 <= c as int <= 13 || 28 <= c as int <= 31
  }

  predicate IsDigit(c: char) {
    '0' as int <= c as int <= '9' as int
  }

  predicate IsDigits(t: string) {
    |t| > 0 && forall i :: 0 <= i < |t| ==> IsDigit(t[i])
  }

  function TrimStart(s: string): string
    decreases |s|
  {
    if |s| > 0 && IsSpace(s[0]) then TrimStart(s[1..]) else s
  }

  /** Trimming the front leaves a suffix of the input. */
  lemma {:induction false} TrimStartSuffix(s: string)
    ensures var r := TrimStart(s); |r| <= |s| && r == s[|s| - |r|..]
    decreases |s|
  {
    if |s| > 0 && IsSpace(s[0]) {
      TrimStartSuffix(s[1..]);
    }
  }

  function TrimEnd(s: string): string
    decreases |s|
  {
    if |s| > 0 && IsSpace(s[|s| - 1]) then TrimEnd(s[..|s| - 1]) else s
  }

  function DigitsValue(t: string): nat
    requires forall i :: 0 <= i < |t| ==> IsDigit(t[i])
    decreases |t|
  {
    if |t| == 0 then 0
    else
      assert IsDigit(t[|t| - 1]);
      DigitsValue(t[..|t| - 1]) * 10 + (t[|t| - 1] as int - '0' as int)
  }

  /** Python's `int(text)` on base-10 text: surrounding ASCII white space,
      an optional sign, then at least one digit; anything else raises. */
  function ParseInt(text: string): (r: Option<int>)
    ensures IsDigits(text) ==> r == Some(DigitsValue(text))
    ensures |text| > 1 && text[0] == '-' && IsDigits(text[1..]) ==> r == Some(-(DigitsValue(text[1..]) as int))
    ensures |text| == 0 ==> r.None?
  {
    var t := TrimEnd(TrimStart(text));
    if |t| > 0 && (t[0] == '-' || t[0] == '+') then
      if IsDigits(t[1..]) then
        var magnitude: int := DigitsValue(t[1..]);
        Some(if t[0] == '-' then -magnitude else magnitude)
      else None
    else if IsDigits(t) then Some(DigitsValue(t))
    else None
  }

  function DigitChar(d: nat): (c: char)
    requires d < 10
    ensures IsDigit(c) && c as int - '0' as int == d
  {
    (d + '0' as int) as char
  }

  /** Python's `str(n)` for a natural number (an f-string `{n}`). */
  function NatToString(n: nat): (s: string)
    ensures IsDigits(s)
    decreases n
  {
    if n < 10 then [DigitChar(n)] else NatToString(n / 10) + [DigitChar(n % 10)]
  }

  lemma {:induction false} DigitsValueOfNatToString(n: nat)
    ensures DigitsValue(NatToString(n)) == n
    decreases n
  {
    if n >= 10 {
      DigitsValueOfNatToString(n / 10);
      var s := NatToString(n);
      assert s[..|s| - 1] == NatToString(n / 10);
    }
  }

  /** `int(str(n)) == n`. */
  lemma ParseIntOfNatToString(n: nat)
    ensures ParseInt(NatToString(n)) == Some(n)
  {
    var s := NatToString(n);
    assert TrimStart(s) == s;
    assert TrimEnd(s) == s;
    DigitsValueOfNatToString(n);
  }
}
