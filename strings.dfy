/** Python's `str.split(sep)` for a non-empty separator, and the facts about it
    that the session-id extraction relies on. */
module Strings {

  /** `sep` occurs in `s` starting at index `i`. */
  predicate OccursAt(s: string, sep: string, i: int) {
    0 <= i && i + |sep| <= |s| && s[i..i + |sep|] == sep
  }

  /** `sep in s`, for a string `sep`. */
  predicate Contains(s: string, sep: string) {
    exists i | 0 <= i <= |s| :: OccursAt(s, sep, i)
  }

  /** `s.split(sep)`: the string is scanned from the left; at each position where
      `sep` starts, the current piece ends and scanning resumes after the whole
      separator, so matches never overlap. Python raises `ValueError` for an
      empty separator, which this program never passes. */
  function Split(s: string, sep: string): (r: seq<string>)
    requires |sep| > 0
    ensures |r| >= 1
    decreases |s|
  {
    if |s| < |sep| then [s]
    else if s[..|sep|] == sep then [""] + Split(s[|sep|..], sep)
    else
      var rest := Split(s[1..], sep);
      [[s[0]] + rest[0]] + rest[1..]
  }

  /** `sep.join(parts)`: the result starts with the first part. */
  function Join(parts: seq<string>, sep: string): (r: string)
    requires |parts| >= 1
    ensures parts[0] <= r
  {
    if |parts| == 1 then parts[0] else parts[0] + sep + Join(parts[1..], sep)
  }

  /** `s.split(c)[0]` written independently: the characters of `s` before its
      first `c`, or all of `s` when it has none. */
  function BeforeFirst(s: string, c: char): (r: string)
    ensures r <= s && c !in r
    ensures |r| < |s| ==> s[|r|] == c
    ensures c !in s ==> r == s
  {
    if s == [] then []
    else if s[0] == c then []
    else [s[0]] + BeforeFirst(s[1..], c)
  }

  /** Splitting and then joining with the same separator gives back the string. */
  lemma {:induction false} SplitJoin(s: string, sep: string)
    requires |sep| > 0
    ensures Join(Split(s, sep), sep) == s
    decreases |s|
  {
    if |s| < |sep| {
      assert Split(s, sep) == [s];
    } else if s[..|sep|] == sep {
      var rest := Split(s[|sep|..], sep);
      var r := [""] + rest;
      assert Split(s, sep) == r;
      SplitJoin(s[|sep|..], sep);
      assert r[0] == "" && r[1..] == rest;
      assert Join(r, sep) == "" + sep + Join(rest, sep);
      assert s == sep + s[|sep|..];
    } else {
      var rest := Split(s[1..], sep);
      assert Split(s, sep) == [[s[0]] + rest[0]] + rest[1..];
      SplitJoin(s[1..], sep);
      JoinConsFirst(s[0], rest, sep);
      assert s == [s[0]] + s[1..];
    }
  }

  /** Putting a character in front of the first piece puts it in front of the join. */
  lemma JoinConsFirst(c: char, parts: seq<string>, sep: string)
    requires |parts| >= 1
    ensures Join([[c] + parts[0]] + parts[1..], sep) == [c] + Join(parts, sep)
  {
  }

  /** The first piece of a split is a prefix of the string. */
  lemma {:induction false} SplitFirstIsPrefix(s: string, sep: string)
    requires |sep| > 0
    ensures Split(s, sep)[0] <= s
    decreases |s|
  {
    if |s| < |sep| {
    } else if s[..|sep|] == sep {
    } else {
      SplitFirstIsPrefix(s[1..], sep);
      assert s == [s[0]] + s[1..];
    }
  }

  /** The first cut falls at the leftmost occurrence of the separator: no
      occurrence starts inside the first piece; with one piece that piece is
      the whole string; otherwise the separator starts right after the first
      piece and the remaining pieces are the split of what follows it. */
  lemma {:induction false} SplitFirstCut(s: string, sep: string)
    requires |sep| > 0
    ensures var r := Split(s, sep);
            && (forall i :: 0 <= i < |r[0]| ==> !OccursAt(s, sep, i))
            && (|r| == 1 ==> r[0] == s)
            && (|r| > 1 ==> OccursAt(s, sep, |r[0]|) && r[1..] == Split(s[|r[0]| + |sep|..], sep))
    decreases |s|
  {
    var r := Split(s, sep);
    if |s| < |sep| {
      assert r == [s];
    } else if s[..|sep|] == sep {
      var tail := Split(s[|sep|..], sep);
      assert r == [""] + tail;
      assert r[1..] == tail;
      assert OccursAt(s, sep, 0);
    } else {
      var rest := Split(s[1..], sep);
      assert r == [[s[0]] + rest[0]] + rest[1..];
      SplitFirstCut(s[1..], sep);
      assert |r[0]| == |rest[0]| + 1 && |r| == |rest|;
      CutShift(s, sep, rest[0], |rest| > 1);
      assert r[1..] == rest[1..];
    }
  }

  /** Moving from `s[1..]` to `s`, when `sep` does not start `s`: a piece `p`
      at the front of `s[1..]` free of earlier occurrences stays free of them
      with `s[0]` in front, and an occurrence right after it moves by one. */
  lemma CutShift(s: string, sep: string, p: string, cut: bool)
    requires |sep| > 0 && |s| >= |sep| && s[..|sep|] != sep
    requires forall i :: 0 <= i < |p| ==> !OccursAt(s[1..], sep, i)
    requires !cut ==> p == s[1..]
    requires cut ==> OccursAt(s[1..], sep, |p|)
    ensures forall i :: 0 <= i < |p| + 1 ==> !OccursAt(s, sep, i)
    ensures !cut ==> [s[0]] + p == s
    ensures cut ==> OccursAt(s, sep, |p| + 1) && s[1..][|p| + |sep|..] == s[|p| + 1 + |sep|..]
  {
    forall i | 0 <= i < |p| + 1 ensures !OccursAt(s, sep, i) {
      if i > 0 && OccursAt(s, sep, i) {
        assert s[1..][i - 1..i - 1 + |sep|] == s[i..i + |sep|];
        assert OccursAt(s[1..], sep, i - 1);
      }
    }
    if cut {
      assert s[1..][|p|..|p| + |sep|] == s[|p| + 1..|p| + 1 + |sep|];
    } else {
      assert s == [s[0]] + s[1..];
    }
  }

  /** No piece of a split contains the separator. */
  lemma {:induction false} SplitPiecesAvoidSep(s: string, sep: string)
    requires |sep| > 0
    ensures forall k :: 0 <= k < |Split(s, sep)| ==> !Contains(Split(s, sep)[k], sep)
    decreases |s|
  {
    if |s| < |sep| {
      assert Split(s, sep) == [s];
    } else if s[..|sep|] == sep {
      var rest := Split(s[|sep|..], sep);
      SplitPiecesAvoidSep(s[|sep|..], sep);
      assert !OccursAt("", sep, 0);
      assert Split(s, sep) == [""] + rest;
    } else {
      var rest := Split(s[1..], sep);
      SplitPiecesAvoidSep(s[1..], sep);
      SplitFirstIsPrefix(s[1..], sep);
      assert [s[0]] + rest[0] <= s by { assert s == [s[0]] + s[1..]; }
      ConsAvoids(s[0], rest[0], s, sep);
      assert Split(s, sep) == [[s[0]] + rest[0]] + rest[1..];
    }
  }

  /** A piece free of the separator stays free of it when the character in
      front of it does not start a separator in the string it came from. */
  lemma ConsAvoids(c: char, p: string, s: string, sep: string)
    requires |sep| > 0 && !Contains(p, sep) && [c] + p <= s
    requires |s| >= |sep| ==> s[..|sep|] != sep
    ensures !Contains([c] + p, sep)
  {
    var first := [c] + p;
    forall i | 0 <= i <= |first| && OccursAt(first, sep, i) ensures false {
      if i != 0 {
        assert p[i - 1..i - 1 + |sep|] == first[i..i + |sep|];
        assert OccursAt(p, sep, i - 1);
      }
    }
  }

  /** A split yields a single piece exactly when the separator does not occur,
      and that piece is then the whole string. */
  lemma SplitSingle(s: string, sep: string)
    requires |sep| > 0
    ensures |Split(s, sep)| == 1 <==> !Contains(s, sep)
    ensures !Contains(s, sep) ==> Split(s, sep) == [s]
  {
    var r := Split(s, sep);
    SplitJoin(s, sep);
    if |r| == 1 {
      SplitPiecesAvoidSep(s, sep);
      assert r == [s];
    } else {
      assert s == r[0] + sep + Join(r[1..], sep);
      assert OccursAt(s, sep, |r[0]|);
    }
  }

  /** Splitting on a one-character separator and taking the first piece cuts
      the string at its first occurrence of that character. */
  lemma {:induction false} SplitCharFirst(s: string, c: char)
    ensures Split(s, [c])[0] == BeforeFirst(s, c)
    decreases |s|
  {
    if |s| < 1 {
    } else if s[..1] == [c] {
    } else {
      SplitCharFirst(s[1..], c);
    }
  }

  /** A string in which the separator's first character never appears is
      copied whole onto the front of the first piece. */
  lemma {:induction false} SplitNoLead(a: string, b: string, sep: string)
    requires |sep| > 0 && sep[0] !in a
    ensures Split(a + b, sep) == [a + Split(b, sep)[0]] + Split(b, sep)[1..]
    decreases |a|
  {
    if a == [] {
      var r := Split(b, sep);
      assert a + b == b && a + r[0] == r[0];
      assert r == [r[0]] + r[1..];
    } else {
      var s := a + b;
      SplitNoLead(a[1..], b, sep);
      assert s[1..] == a[1..] + b;
      if |s| < |sep| {
        assert Split(b, sep) == [b];
      } else {
        assert s[0] == a[0];
        assert s[..|sep|] != sep;
        assert [s[0]] + (a[1..] + Split(b, sep)[0]) == a + Split(b, sep)[0];
      }
    }
  }

  /** Where the separator does not start the string, the first character
      joins the first piece and the later pieces are those of the rest. */
  lemma SplitStep(s: string, sep: string)
    requires |sep| > 0 && |s| >= |sep| && s[..|sep|] != sep
    ensures |Split(s, sep)| == |Split(s[1..], sep)|
    ensures Split(s, sep)[1..] == Split(s[1..], sep)[1..]
  {
  }

  /** A separator in front of the string produces an empty first piece. */
  lemma SplitAtSep(b: string, sep: string)
    requires |sep| > 0
    ensures Split(sep + b, sep) == [""] + Split(b, sep)
  {
  }

  /** When the separator's first character does not appear in `a`, the first
      cut falls exactly at the separator written after `a`. */
  lemma SplitOnce(a: string, b: string, sep: string)
    requires |sep| > 0 && sep[0] !in a
    ensures Split(a + sep + b, sep) == [a] + Split(b, sep)
  {
    assert a + sep + b == a + (sep + b);
    SplitNoLead(a, sep + b, sep);
    SplitAtSep(b, sep);
    var r := Split(sep + b, sep);
    assert r[0] == "" && r[1..] == Split(b, sep);
    assert a + r[0] == a;
  }

  /** Joining pieces that hold no first character of the separator and
      splitting again gives back the pieces. */
  lemma {:induction false} JoinSplit(parts: seq<string>, sep: string)
    requires |sep| > 0 && |parts| >= 1
    requires forall k :: 0 <= k < |parts| ==> sep[0] !in parts[k]
    ensures Split(Join(parts, sep), sep) == parts
    decreases |parts|
  {
    if |parts| == 1 {
      NotContainsByLead(parts[0], sep);
      SplitSingle(parts[0], sep);
    } else {
      JoinSplit(parts[1..], sep);
      SplitOnce(parts[0], Join(parts[1..], sep), sep);
      assert parts == [parts[0]] + parts[1..];
    }
  }

  /** A separator whose first character is absent from `s` does not occur in it. */
  lemma NotContainsByLead(s: string, sep: string)
    requires |sep| > 0 && sep[0] !in s
    ensures !Contains(s, sep)
  {
  }
}
