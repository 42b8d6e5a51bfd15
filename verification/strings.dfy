/** The parts of Python's `str` that the application relies on, over `seq<char>`:
    `split` with an explicit separator, `sep.join`, `strip()`, `startswith`
    and ASCII `lower()`. */
module Strings {

  /** Python's `sep.join(parts)`: the parts with `sep` between neighbours. */
  function Join(parts: seq<string>, sep: string): string
  {
    if |parts| == 0 then ""
    else if |parts| == 1 then parts[0]
    else parts[0] + sep + Join(parts[1..], sep)
  }

  /** `sep` occurs in `s` starting at index `i`. */
  predicate OccursAt(s: string, sep: string, i: int)
  {
    0 <= i && i + |sep| <= |s| && s[i..i + |sep|] == sep
  }

  /** Python's `sep in s`. */
  predicate Contains(s: string, sep: string)
  {
    exists i | 0 <= i <= |s| :: OccursAt(s, sep, i)
  }

  predicate StartsWith(s: string, prefix: string)
  {
    |prefix| <= |s| && s[..|prefix|] == prefix
  }

  predicate EndsWith(s: string, suffix: string)
  {
    |suffix| <= |s| && s[|s| - |suffix|..] == suffix
  }

  lemma ShiftOccurrence(s: string, sep: string, i: int)
    requires |s| >= 1 && i >= 0
    ensures OccursAt(s[1..], sep, i) <==> OccursAt(s, sep, i + 1)
  {
    if 0 <= i && i + |sep| <= |s| - 1 {
      assert s[1..][i..i + |sep|] == s[i + 1..i + 1 + |sep|];
    }
  }

  /** Putting the first character of `s` back in front of a separator-free
      prefix of `s[1..]` gives a separator-free prefix of `s`, provided `s`
      does not itself start with the separator. */
  lemma PrependNoOccurrence(s: string, sep: string, t: string)
    requires |sep| > 0 && |sep| <= |s| && s[..|sep|] != sep
    requires StartsWith(s[1..], t) && !Contains(t, sep)
    ensures StartsWith(s, [s[0]] + t) && !Contains([s[0]] + t, sep)
  {
    var p := [s[0]] + t;
    assert p == s[..|p|];
    forall i | 0 <= i <= |p|
      ensures !OccursAt(p, sep, i)
    {
      if i == 0 {
        if |sep| <= |p| {
          assert p[0..|sep|] == s[..|sep|];
        }
      } else {
        assert p[1..] == t;
        ShiftOccurrence(p, sep, i - 1);
      }
    }
  }

  /** Python's `s.split(sep)` for a non-empty separator: scan from the left,
      cut at each leftmost non-overlapping occurrence of `sep`. There is
      always a piece, the first piece opens the text, and no piece contains
      the separator. Each cut is at the leftmost occurrence: when there is
      more than one piece the first is followed by the separator, and no
      piece but the last runs into a separator that starts inside it. */
  function Split(s: string, sep: string): (parts: seq<string>)
    requires |sep| > 0
    ensures |parts| >= 1
    ensures StartsWith(s, parts[0])
    ensures |parts| > 1 ==> StartsWith(s, parts[0] + sep)
    ensures forall j :: 0 <= j < |parts| ==> !Contains(parts[j], sep)
    ensures forall j :: 0 <= j < |parts| - 1 ==> !Contains(parts[j] + sep[..|sep| - 1], sep)
    decreases |s|
  {
    if |s| < |sep| then [s]
    else if s[..|sep|] == sep then
      var rest := Split(s[|sep|..], sep);
      ShortNoOccurrence(sep[..|sep| - 1], sep);
      [""] + rest
    else
      var rest := Split(s[1..], sep);
      PrependNoOccurrence(s, sep, rest[0]);
      if |rest| > 1 then
        assert StartsWith(s[1..], rest[0] + sep[..|sep| - 1]) by {
          assert (rest[0] + sep)[..|rest[0]| + |sep| - 1] == rest[0] + sep[..|sep| - 1];
        }
        PrependNoOccurrence(s, sep, rest[0] + sep[..|sep| - 1]);
        assert [s[0]] + rest[0] + sep[..|sep| - 1] == [s[0]] + (rest[0] + sep[..|sep| - 1]);
        assert s[..|[s[0]] + rest[0] + sep|] == [s[0]] + rest[0] + sep by {
          assert s[1..][..|rest[0] + sep|] == rest[0] + sep;
        }
        [[s[0]] + rest[0]] + rest[1..]
      else
        [[s[0]] + rest[0]] + rest[1..]
  }

  /** The first cut of `Split` falls at the leftmost occurrence of the
      separator in the whole text, and there is no cut when it does not occur. */
  lemma SplitFirstCut(s: string, sep: string)
    requires |sep| > 0
    ensures var p := Split(s, sep)[0];
      (|Split(s, sep)| > 1 <==> OccursAt(s, sep, |p|)) &&
      forall i :: 0 <= i < |p| ==> !OccursAt(s, sep, i)
  {
    var parts := Split(s, sep);
    var p := parts[0];
    SplitSingle(s, sep);
    var q := if |parts| > 1 then p + sep[..|sep| - 1] else p;
    forall i | 0 <= i < |p|
      ensures !OccursAt(s, sep, i)
    {
      if |parts| > 1 {
        assert StartsWith(s, q) by {
          assert q == (p + sep)[..|q|];
        }
      }
      if i + |sep| <= |q| {
        OccurrenceInPrefix(s, q, sep, i);
      }
    }
  }

  /** An occurrence that ends inside a prefix of `s` is an occurrence in that prefix. */
  lemma OccurrenceInPrefix(s: string, q: string, sep: string, i: int)
    requires StartsWith(s, q) && 0 <= i && i + |sep| <= |q|
    ensures OccursAt(s, sep, i) <==> OccursAt(q, sep, i)
  {
    forall k | i <= k < i + |sep|
      ensures s[k] == q[k]
    {
      assert s[..|q|][k] == s[k];
    }
    assert s[i..i + |sep|] == q[i..i + |sep|];
  }

  /** A text shorter than the separator cannot contain it. */
  lemma ShortNoOccurrence(t: string, sep: string)
    requires |t| < |sep|
    ensures !Contains(t, sep)
  {
  }

  /** Python's `s[:n]` for `n >= 0`: the first `n` characters, or all of a shorter string. */
  function Take(s: string, n: nat): (r: string)
    ensures |r| == if |s| < n then |s| else n
    ensures StartsWith(s, r)
  {
    if |s| <= n then s else s[..n]
  }

  /** Appending a part adds one separator and that part. */
  lemma {:induction false} JoinAppend(parts: seq<string>, x: string, sep: string)
    requires |parts| >= 1
    ensures Join(parts + [x], sep) == Join(parts, sep) + sep + x
  {
    if |parts| > 1 {
      assert (parts + [x])[1..] == parts[1..] + [x];
      JoinAppend(parts[1..], x, sep);
    } else {
      assert (parts + [x])[1..] == [x];
    }
  }

  lemma JoinPrepend(c: string, rest: seq<string>, sep: string)
    requires |rest| >= 1
    ensures Join([c + rest[0]] + rest[1..], sep) == c + Join(rest, sep)
  {
    var parts := [c + rest[0]] + rest[1..];
    assert parts[1..] == rest[1..];
  }

  /** Joining what `split` produced with the same separator gives back the
      original string: no character is lost or invented by the split. */
  lemma {:induction false} JoinSplit(s: string, sep: string)
    requires |sep| > 0
    ensures Join(Split(s, sep), sep) == s
    decreases |s|
  {
    if |s| < |sep| {
    } else if s[..|sep|] == sep {
      var tail := s[|sep|..];
      var rest := Split(tail, sep);
      assert Split(s, sep) == [""] + rest;
      JoinSplit(tail, sep);
      assert ([""] + rest)[1..] == rest;
      assert Join([""] + rest, sep) == "" + sep + Join(rest, sep);
      assert s == sep + tail;
    } else {
      var tail := s[1..];
      var rest := Split(tail, sep);
      assert Split(s, sep) == [[s[0]] + rest[0]] + rest[1..];
      JoinSplit(tail, sep);
      JoinPrepend([s[0]], rest, sep);
      assert s == [s[0]] + tail;
    }
  }

  lemma {:induction false} SplitWithoutSeparator(s: string, sep: string)
    requires |sep| > 0
    requires !Contains(s, sep)
    ensures Split(s, sep) == [s]
    decreases |s|
  {
    if |s| >= |sep| {
      assert !OccursAt(s, sep, 0);
      assert s[0..|sep|] == s[..|sep|];
      forall i | OccursAt(s[1..], sep, i)
        ensures false
      {
        ShiftOccurrence(s, sep, i);
      }
      SplitWithoutSeparator(s[1..], sep);
      assert [s[0]] + s[1..] == s;
    }
  }

  lemma {:induction false} SplitWithSeparator(s: string, sep: string, i: int)
    requires |sep| > 0
    requires OccursAt(s, sep, i)
    ensures |Split(s, sep)| >= 2
    decreases |s|
  {
    if s[..|sep|] != sep {
      assert i != 0 by { assert s[0..|sep|] == s[..|sep|]; }
      ShiftOccurrence(s, sep, i - 1);
      SplitWithSeparator(s[1..], sep, i - 1);
    }
  }

  /** `s.split(sep)` has exactly one piece precisely when `sep` does not occur
      in `s`, and that piece is then `s` itself. */
  lemma SplitSingle(s: string, sep: string)
    requires |sep| > 0
    ensures |Split(s, sep)| == 1 <==> !Contains(s, sep)
    ensures |Split(s, sep)| == 1 ==> Split(s, sep) == [s]
  {
    if Contains(s, sep) {
      var i :| OccursAt(s, sep, i);
      SplitWithSeparator(s, sep, i);
    } else {
      SplitWithoutSeparator(s, sep);
    }
  }

  lemma {:induction false} SplitAtFirstSeparator(x: string, c: char, rest: string)
    requires c !in x
    ensures Split(x + [c] + rest, [c]) == [x] + Split(rest, [c])
    decreases |x|
  {
    var s := x + [c] + rest;
    if |x| == 0 {
      assert s[..1] == [c];
      assert s[1..] == rest;
    } else {
      assert s[..1] == [x[0]];
      assert s[1..] == x[1..] + [c] + rest;
      SplitAtFirstSeparator(x[1..], c, rest);
      assert [x[0]] + x[1..] == x;
    }
  }

  lemma NoCharNoOccurrence(x: string, c: char)
    requires c !in x
    ensures !Contains(x, [c])
  {
    forall i | 0 <= i < |x|
      ensures !OccursAt(x, [c], i)
    {
      assert x[i..i + 1] == [x[i]];
    }
  }

  /** Splitting on a one-character separator undoes a join on it, provided no
      part contains that character. */
  lemma {:induction false} SplitJoinChar(parts: seq<string>, c: char)
    requires |parts| >= 1
    requires forall j :: 0 <= j < |parts| ==> c !in parts[j]
    ensures Split(Join(parts, [c]), [c]) == parts
  {
    if |parts| == 1 {
      NoCharNoOccurrence(parts[0], c);
      SplitWithoutSeparator(parts[0], [c]);
    } else {
      SplitJoinChar(parts[1..], c);
      SplitAtFirstSeparator(parts[0], c, Join(parts[1..], [c]));
      assert [parts[0]] + parts[1..] == parts;
    }
  }

  /** Python's `str.isspace()` for one character: the ASCII and Unicode
      whitespace set that `strip()` with no argument removes. */
  predicate IsSpace(c: char)
  {
    var k := c as int;
    || (9 <= k <= 13)
    || (0x1C <= k <= 0x20)
    || k == 0x85 || k == 0xA0 || k == 0x1680
    || (0x2000 <= k <= 0x200A)
    || k == 0x2028 || k == 0x2029 || k == 0x202F || k == 0x205F || k == 0x3000
  }

  /** Every character of `t` is whitespace. */
  predicate AllSpace(t: string)
  {
    forall i :: 0 <= i < |t| ==> IsSpace(t[i])
  }

  /** Where the whitespace run of `s` starting at index `i` ends. */
  function SpaceRunEnd(s: string, i: nat): (n: nat)
    requires i <= |s|
    ensures i <= n <= |s|
    ensures forall k :: i <= k < n ==> IsSpace(s[k])
    ensures n < |s| ==> !IsSpace(s[n])
    decreases |s| - i
  {
    if i < |s| && IsSpace(s[i]) then SpaceRunEnd(s, i + 1) else i
  }

  /** Where the whitespace run of `s` ending at index `j` starts, looking no
      further back than `lo`. */
  function SpaceRunStart(s: string, lo: nat, j: nat): (n: nat)
    requires lo <= j <= |s|
    ensures lo <= n <= j
    ensures forall k :: n <= k < j ==> IsSpace(s[k])
    ensures n > lo ==> !IsSpace(s[n - 1])
  {
    if j > lo && IsSpace(s[j - 1]) then SpaceRunStart(s, lo, j - 1) else j
  }

  /** Neither end of `s` is whitespace. */
  predicate Stripped(s: string)
  {
    |s| == 0 || (!IsSpace(s[0]) && !IsSpace(s[|s| - 1]))
  }

  /** Python's `s.strip()`: `s` without its leading and trailing whitespace.
      What remains is the slice of `s` that starts at the first
      non-whitespace character: everything in front of it and everything
      behind it is whitespace, and the slice neither starts nor ends with
      whitespace. */
  function Strip(s: string): (r: string)
    ensures Stripped(r)
    ensures |r| <= |s|
    ensures Stripped(s) ==> r == s
    ensures var a := SpaceRunEnd(s, 0);
      && a + |r| <= |s|
      && r == s[a..a + |r|]
      && (forall k :: 0 <= k < a ==> IsSpace(s[k]))
      && (forall k :: a + |r| <= k < |s| ==> IsSpace(s[k]))
  {
    var a := SpaceRunEnd(s, 0);
    var b := SpaceRunStart(s, a, |s|);
    assert b > a ==> !IsSpace(s[a]);
    s[a..b]
  }

  /** `strip()` gives the empty string exactly for an all-whitespace string. */
  lemma StripEmpty(s: string)
    ensures Strip(s) == "" <==> AllSpace(s)
  {
    var a := SpaceRunEnd(s, 0);
    if a < |s| {
      assert !IsSpace(s[a]);
      assert |Strip(s)| > 0;
    }
  }

  /** Python's `str.lower()` on one ASCII character. */
  function LowerChar(c: char): char
  {
    if 'A' <= c <= 'Z' then (c as int + 32) as char else c
  }

  /** ASCII `lower()`: every upper-case letter replaced by its lower-case form. */
  function Lower(s: string): (r: string)
    ensures |r| == |s|
    ensures forall i :: 0 <= i < |s| ==> !('A' <= r[i] <= 'Z')
    ensures forall i :: 0 <= i < |s| ==>
      if 'A' <= s[i] <= 'Z' then r[i] as int == s[i] as int + 32 else r[i] == s[i]
  {
    seq(|s|, i requires 0 <= i < |s| => LowerChar(s[i]))
  }

  /** Index of the first occurrence of `c` in `s`. */
  function IndexOf(s: string, c: char): (i: nat)
    requires c in s
    ensures i < |s| && s[i] == c && c !in s[..i]
  {
    if s[0] == c then 0
    else
      var j := IndexOf(s[1..], c);
      assert s[..j + 1] == [s[0]] + s[1..][..j];
      j + 1
  }
}
