/** The Python `str` operations the classifier relies on, restricted to ASCII:
    `isalnum`, `isspace`, `lower`, `strip`, `split(sep)`, `sep.join`,
    and the substring test `sub in s`. */
module PyStr {
  import opened Seqs

  predicate IsUpper(c: char) { 'A' <= c <= 'Z' }

  predicate IsAlnum(c: char) { 'a' <= c <= 'z' || IsUpper(c) || '0' <= c <= '9' }

  /** The ASCII characters for which Python's `str.isspace` holds. */
  predicate IsSpace(c: char)
  {
    // space, tab, line feed, vertical tab, form feed, carriage return (9..13),
    // and the file, group, record and unit separators (28..31)
    c == ' ' || '\t' <= c <= '\r' || 28 <= c as int <= 31
  }

  function LowerChar(c: char): (d: char)
    ensures !IsUpper(d)
    ensures IsAlnum(c) <==> IsAlnum(d)
    ensures !IsUpper(c) ==> d == c
  {
    if IsUpper(c) then c - 'A' + 'a' else c
  }

  /** `s.lower()`. */
  function Lower(s: string): (r: string)
    ensures |r| == |s|
    ensures forall i :: 0 <= i < |s| ==> r[i] == LowerChar(s[i])
  {
    seq(|s|, i requires 0 <= i < |s| => LowerChar(s[i]))
  }

  lemma {:induction false} LowerKeepsMember(s: string, c: char)
    requires c in s
    ensures LowerChar(c) in Lower(s)
  {
    var i :| 0 <= i < |s| && s[i] == c;
    assert Lower(s)[i] == LowerChar(c);
  }

  lemma LowerUnchangedWithoutUpper(s: string)
    requires forall c :: c in s ==> !IsUpper(c)
    ensures Lower(s) == s
  {
  }

  /** `s.lstrip()`: drops the longest all-whitespace prefix. */
  function TrimStart(s: string): (r: string)
    ensures |r| <= |s| && r == s[|s| - |r|..]
    ensures r == [] || !IsSpace(r[0])
    ensures forall i :: 0 <= i < |s| - |r| ==> IsSpace(s[i])
    decreases |s|
  {
    if s != [] && IsSpace(s[0]) then TrimStart(s[1..]) else s
  }

  /** `s.rstrip()`: drops the longest all-whitespace suffix. */
  function TrimEnd(s: string): (r: string)
    ensures |r| <= |s| && r == s[..|r|]
    ensures r == [] || !IsSpace(r[|r| - 1])
    ensures forall i :: |r| <= i < |s| ==> IsSpace(s[i])
    decreases |s|
  {
    if s != [] && IsSpace(s[|s| - 1]) then TrimEnd(s[..|s| - 1]) else s
  }

  /** `r` is the slice of `s` starting at `i`, and every character of `s`
      before or after that slice is whitespace. */
  predicate StrippedAt(s: string, r: string, i: int)
  {
    0 <= i <= |s| - |r| && r == s[i..i + |r|] &&
    (forall k :: 0 <= k < i ==> IsSpace(s[k])) &&
    (forall k :: i + |r| <= k < |s| ==> IsSpace(s[k]))
  }

  /** `s.strip()`: the slice of `s` that is left once the whitespace at
      both ends is gone; no other character is removed. */
  function Strip(s: string): (r: string)
    ensures r == [] || (!IsSpace(r[0]) && !IsSpace(r[|r| - 1]))
    ensures exists i :: StrippedAt(s, r, i)
    ensures forall c :: !IsSpace(c) ==> multiset(r)[c] == multiset(s)[c]
    ensures IsSubsequence(r, s)
  {
    var r := TrimEnd(TrimStart(s));
    var i := |s| - |TrimStart(s)|;
    TrimBothEnds(s);
    SliceBetweenSpaces(s, r, i);
    r
  }

  /** `rstrip` after `lstrip` leaves a slice with only whitespace around it. */
  lemma {:induction false} TrimBothEnds(s: string)
    ensures StrippedAt(s, TrimEnd(TrimStart(s)), |s| - |TrimStart(s)|)
  {
    var t := TrimStart(s);
    TrimmedSlice(s, t, TrimEnd(t));
  }

  lemma {:induction false} TrimmedSlice(s: string, t: string, r: string)
    requires |t| <= |s| && t == s[|s| - |t|..]
    requires forall k :: 0 <= k < |s| - |t| ==> IsSpace(s[k])
    requires |r| <= |t| && r == t[..|r|]
    requires forall k :: |r| <= k < |t| ==> IsSpace(t[k])
    ensures StrippedAt(s, r, |s| - |t|)
  {
    var i := |s| - |t|;
    forall k | i + |r| <= k < |s|
      ensures IsSpace(s[k])
    {
      assert s[k] == t[k - i];
    }
  }

  /** Removing only whitespace keeps every other character as often as it occurs. */
  lemma {:induction false} SliceBetweenSpaces(s: string, r: string, i: int)
    requires StrippedAt(s, r, i)
    ensures forall c :: !IsSpace(c) ==> multiset(r)[c] == multiset(s)[c]
    ensures IsSubsequence(r, s)
  {
    SliceIsSubsequence(s, i, i + |r|);
    var before, after := s[..i], s[i + |r|..];
    assert s == before + r + after;
    forall c | !IsSpace(c)
      ensures multiset(r)[c] == multiset(s)[c]
    {
      assert c !in before;
      assert c !in after;
    }
  }

  /** Stripping a string that neither starts nor ends with whitespace changes nothing. */
  lemma StripUnchanged(s: string)
    requires s == [] || (!IsSpace(s[0]) && !IsSpace(s[|s| - 1]))
    ensures Strip(s) == s
  {
  }

  /** `s.split(sep)` for a one-character separator: empty fields are kept. */
  function Split(s: string, sep: char): (parts: seq<string>)
    ensures |parts| >= 1
    ensures forall k :: 0 <= k < |parts| ==> sep !in parts[k]
    decreases |s|
  {
    if s == [] then [[]]
    else
      var rest := Split(s[1..], sep);
      if s[0] == sep then [[]] + rest
      else [[s[0]] + rest[0]] + rest[1..]
  }

  /** `sep.join(parts)`: every part occurs in the result as a substring. */
  function Join(parts: seq<string>, sep: char): (r: string)
    ensures forall k :: 0 <= k < |parts| ==> Contains(r, parts[k])
    decreases |parts|
  {
    if |parts| == 0 then []
    else if |parts| == 1 then
      assert StartsWith(parts[0], parts[0]);
      parts[0]
    else
      var rest := Join(parts[1..], sep);
      var r := parts[0] + [sep] + rest;
      assert StartsWith(r, parts[0]);
      ContainsAfter(parts[0] + [sep], rest, parts[1..]);
      assert forall k :: 1 <= k < |parts| ==> parts[k] == parts[1..][k - 1];
      r
  }

  /** A substring of `t` is a substring of any `a + t`. */
  lemma {:induction false} ContainsAfter(a: string, t: string, subs: seq<string>)
    requires forall k :: 0 <= k < |subs| ==> Contains(t, subs[k])
    ensures forall k :: 0 <= k < |subs| ==> Contains(a + t, subs[k])
    decreases |a|
  {
    if a == [] {
      assert a + t == t;
    } else {
      ContainsAfter(a[1..], t, subs);
      assert (a + t)[1..] == a[1..] + t;
      forall k | 0 <= k < |subs|
        ensures Contains(a + t, subs[k])
      {
        assert Contains((a + t)[1..], subs[k]);
      }
    }
  }

  /** Every character of a substring occurs in the string. */
  lemma {:induction false} ContainsMembers(s: string, sub: string, c: char)
    requires Contains(s, sub) && c in sub
    ensures c in s
    decreases |s|
  {
    if StartsWith(s, sub) {
      assert c in s[..|sub|];
    } else {
      ContainsMembers(s[1..], sub, c);
    }
  }

  /** Splitting yields one more field than there are separators. */
  lemma {:induction false} SplitFieldCount(s: string, sep: char)
    ensures |Split(s, sep)| == multiset(s)[sep] + 1
    decreases |s|
  {
    if s != [] {
      SplitFieldCount(s[1..], sep);
      assert s == [s[0]] + s[1..];
    }
  }

  /** Joining the fields with the separator gives back the original string. */
  lemma {:induction false} JoinSplit(s: string, sep: char)
    ensures Join(Split(s, sep), sep) == s
    decreases |s|
  {
    if s != [] {
      var rest := Split(s[1..], sep);
      JoinSplit(s[1..], sep);
      if s[0] == sep {
        assert ([[]] + rest)[1..] == rest;
      } else if |rest| > 1 {
        assert ([[s[0]] + rest[0]] + rest[1..])[1..] == rest[1..];
      }
    }
  }

  lemma {:induction false} SplitAroundSeparator(a: string, b: string, sep: char)
    ensures Split(a + [sep] + b, sep) == Split(a, sep) + Split(b, sep)
    decreases |a|
  {
    if a == [] {
      assert (a + [sep] + b)[1..] == b;
    } else {
      assert (a + [sep] + b)[1..] == a[1..] + [sep] + b;
      SplitAroundSeparator(a[1..], b, sep);
    }
  }

  lemma {:induction false} SplitWithoutSeparator(s: string, sep: char)
    requires sep !in s
    ensures Split(s, sep) == [s]
    decreases |s|
  {
    if s != [] {
      SplitWithoutSeparator(s[1..], sep);
      assert [s[0]] + s[1..] == s;
    }
  }

  /** Splitting a join of separator-free fields gives back the fields;
      the empty list is the one exception, since `''.split(sep) == ['']`. */
  lemma {:induction false} SplitJoin(parts: seq<string>, sep: char)
    requires |parts| >= 1
    requires forall k :: 0 <= k < |parts| ==> sep !in parts[k]
    ensures Split(Join(parts, sep), sep) == parts
    decreases |parts|
  {
    if |parts| == 1 {
      SplitWithoutSeparator(parts[0], sep);
    } else {
      SplitJoin(parts[1..], sep);
      SplitAroundSeparator(parts[0], Join(parts[1..], sep), sep);
      SplitWithoutSeparator(parts[0], sep);
      assert [parts[0]] + parts[1..] == parts;
    }
  }

  predicate StartsWith(s: string, prefix: string)
  {
    |prefix| <= |s| && s[..|prefix|] == prefix
  }

  /** Python's substring test `sub in s`. */
  predicate Contains(s: string, sub: string)
    decreases |s|
  {
    StartsWith(s, sub) || (s != [] && Contains(s[1..], sub))
  }

  /** Whatever occurs at some position of `s` is contained in `s`. */
  lemma {:induction false} ContainsAt(s: string, sub: string, i: nat)
    requires i + |sub| <= |s| && s[i..i + |sub|] == sub
    ensures Contains(s, sub)
    decreases i
  {
    if i > 0 {
      assert s[1..][i - 1..i - 1 + |sub|] == sub;
      ContainsAt(s[1..], sub, i - 1);
    }
  }

  /** `b in a + b + c` always holds. */
  lemma ContainsMiddle(a: string, b: string, c: string)
    ensures Contains(a + b + c, b)
  {
    assert (a + b + c)[|a|..|a| + |b|] == b;
    ContainsAt(a + b + c, b, |a|);
  }

  predicate EndsWith(s: string, suffix: string)
  {
    |suffix| <= |s| && s[|s| - |suffix|..] == suffix
  }

  /** The join of the last `k` fields is a suffix of the join of all fields. */
  lemma {:induction false} JoinEndsWithLastFields(parts: seq<string>, k: nat, sep: char)
    requires 1 <= k <= |parts|
    ensures EndsWith(Join(parts, sep), Join(parts[|parts| - k..], sep))
    decreases |parts|
  {
    if k == |parts| {
      assert parts[|parts| - k..] == parts;
    } else {
      JoinEndsWithLastFields(parts[1..], k, sep);
      assert parts[1..][|parts| - 1 - k..] == parts[|parts| - k..];
    }
  }
}
