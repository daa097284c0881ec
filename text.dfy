/**
  String operations the configuration step relies on: splitting on a separator,
  joining, and replacing every occurrence of a substring, each with the
  left-to-right, non-overlapping semantics of the host language's string methods.
*/
module Text {

  /** True iff `pat` occurs in `s` at index `i`. */
  predicate OccursAt(s: string, pat: string, i: nat)
  {
    i + |pat| <= |s| && s[i..i + |pat|] == pat
  }

  /** True iff `pat` occurs somewhere in `s`. */
  predicate Occurs(s: string, pat: string)
  {
    exists i: nat | i <= |s| :: OccursAt(s, pat, i)
  }

  /** The number of occurrences of the character `c` in `s`. */
  function CountChar(s: string, c: char): nat
  {
    if s == [] then 0 else (if s[0] == c then 1 else 0) + CountChar(s[1..], c)
  }

  /** Splits `s` at every non-overlapping occurrence of `sep`, scanning left to right. */
  function Split(s: string, sep: string): (parts: seq<string>)
    requires |sep| > 0
    ensures |parts| >= 1
    decreases |s|
  {
    if |s| < |sep| then [s]
    else if s[..|sep|] == sep then [""] + Split(s[|sep|..], sep)
    else
      var t := Split(s[1..], sep);
      [[s[0]] + t[0]] + t[1..]
  }

  /** Concatenates `parts`, putting `sep` between consecutive parts. */
  function Join(sep: string, parts: seq<string>): string
    requires |parts| >= 1
  {
    if |parts| == 1 then parts[0] else parts[0] + sep + Join(sep, parts[1..])
  }

  /** Replaces every non-overlapping occurrence of `pat` in `s`, scanning left to right, by `rep`. */
  function Replace(s: string, pat: string, rep: string): string
    requires |pat| > 0
    decreases |s|
  {
    if |s| < |pat| then s
    else if s[..|pat|] == pat then rep + Replace(s[|pat|..], pat, rep)
    else [s[0]] + Replace(s[1..], pat, rep)
  }

  lemma JoinPrepend(sep: string, c: char, parts: seq<string>)
    requires |parts| >= 1
    ensures Join(sep, [[c] + parts[0]] + parts[1..]) == [c] + Join(sep, parts)
  {
    var q := [[c] + parts[0]] + parts[1..];
    if |parts| > 1 {
      assert q[1..] == parts[1..];
    }
  }

  /** Replacing is splitting at the pattern and joining with the replacement. */
  lemma {:induction false} ReplaceIsJoinOfSplit(s: string, pat: string, rep: string)
    requires |pat| > 0
    ensures Replace(s, pat, rep) == Join(rep, Split(s, pat))
    decreases |s|
  {
    if |s| < |pat| {
    } else if s[..|pat|] == pat {
      ReplaceIsJoinOfSplit(s[|pat|..], pat, rep);
      var t := Split(s[|pat|..], pat);
      assert ([""] + t)[1..] == t;
    } else {
      ReplaceIsJoinOfSplit(s[1..], pat, rep);
      JoinPrepend(rep, s[0], Split(s[1..], pat));
    }
  }

  /** Replacing a pattern by itself changes nothing. */
  lemma {:induction false} ReplaceBySelf(s: string, pat: string)
    requires |pat| > 0
    ensures Replace(s, pat, pat) == s
    decreases |s|
  {
    if |s| < |pat| {
    } else if s[..|pat|] == pat {
      ReplaceBySelf(s[|pat|..], pat);
      assert s == s[..|pat|] + s[|pat|..];
    } else {
      ReplaceBySelf(s[1..], pat);
      assert s == [s[0]] + s[1..];
    }
  }

  /** Joining the parts of a split with the separator gives back the original string. */
  lemma SplitJoinRoundTrip(s: string, sep: string)
    requires |sep| > 0
    ensures Join(sep, Split(s, sep)) == s
  {
    ReplaceIsJoinOfSplit(s, sep, sep);
    ReplaceBySelf(s, sep);
  }

  /** The first part of a split is a prefix of the string split. */
  lemma {:induction false} SplitFirstIsPrefix(s: string, sep: string)
    requires |sep| > 0
    ensures Split(s, sep)[0] <= s
    decreases |s|
  {
    if |s| >= |sep| && s[..|sep|] != sep {
      SplitFirstIsPrefix(s[1..], sep);
    }
  }

  /** Splitting goes on to the end: no part of a split holds the separator. */
  lemma {:induction false} SplitPartsFree(s: string, sep: string)
    requires |sep| > 0
    ensures forall k :: 0 <= k < |Split(s, sep)| ==> !Occurs(Split(s, sep)[k], sep)
    decreases |s|
  {
    var parts := Split(s, sep);
    if |s| < |sep| {
      assert parts == [s];
    } else if s[..|sep|] == sep {
      SplitPartsFree(s[|sep|..], sep);
      assert parts == [""] + Split(s[|sep|..], sep);
    } else {
      var t := Split(s[1..], sep);
      SplitPartsFree(s[1..], sep);
      SplitFirstIsPrefix(s[1..], sep);
      var h := [s[0]] + t[0];
      assert parts == [h] + t[1..];
      assert h <= s;
      forall i: nat | i <= |h| ensures !OccursAt(h, sep, i) {
        if i == 0 {
          if |sep| <= |h| {
            assert h[..|sep|] == s[..|sep|];
          }
        } else {
          assert !OccursAt(t[0], sep, i - 1);
          if i + |sep| <= |h| {
            assert h[i..i + |sep|] == t[0][i - 1..i - 1 + |sep|];
          }
        }
      }
      forall k | 1 <= k < |parts| ensures !Occurs(parts[k], sep) {
        assert parts[k] == t[k];
      }
    }
  }

  /** A string in which the pattern does not occur is left unchanged by Replace. */
  lemma {:induction false} ReplaceWithoutOccurrence(s: string, pat: string, rep: string)
    requires |pat| > 0
    requires !Occurs(s, pat)
    ensures Replace(s, pat, rep) == s
    decreases |s|
  {
    if |s| < |pat| {
    } else {
      assert !OccursAt(s, pat, 0);
      forall i: nat | OccursAt(s[1..], pat, i) ensures OccursAt(s, pat, i + 1) {
        assert s[i + 1..i + 1 + |pat|] == s[1..][i..i + |pat|];
      }
      ReplaceWithoutOccurrence(s[1..], pat, rep);
      assert s == [s[0]] + s[1..];
    }
  }

  /** Splitting on a one-character separator yields one more part than the separator occurs. */
  lemma {:induction false} SplitCount(s: string, c: char)
    ensures |Split(s, [c])| == CountChar(s, c) + 1
    decreases |s|
  {
    if s != [] {
      SplitCount(s[1..], c);
      assert s[..1] == [s[0]];
      assert s[1..] == s[|[c]|..];
    }
  }

  lemma {:induction false} CountCharAppend(a: string, b: string, c: char)
    ensures CountChar(a + b, c) == CountChar(a, c) + CountChar(b, c)
    decreases |a|
  {
    if a == [] {
      assert a + b == b;
    } else {
      assert (a + b)[1..] == a[1..] + b;
      CountCharAppend(a[1..], b, c);
    }
  }

  /** A character that is not counted does not occur. */
  lemma {:induction false} CountCharZero(s: string, c: char)
    requires CountChar(s, c) == 0
    ensures c !in s
    decreases |s|
  {
    if s != [] {
      CountCharZero(s[1..], c);
      assert s == [s[0]] + s[1..];
    }
  }

  /**
    A two-way unpack of `key.split(".")` succeeds exactly when the key holds one
    dot; the two parts are then the text before and after it, neither holding a dot.
  */
  lemma TwoPartSplit(key: string)
    ensures |Split(key, ".")| == 2 <==> CountChar(key, '.') == 1
    ensures |Split(key, ".")| == 2 ==>
      var parts := Split(key, ".");
      key == parts[0] + "." + parts[1] && '.' !in parts[0] && '.' !in parts[1]
  {
    SplitCount(key, '.');
    var parts := Split(key, ".");
    if |parts| == 2 {
      SplitJoinRoundTrip(key, ".");
      assert Join(".", parts) == parts[0] + "." + parts[1];
      CountCharAppend(parts[0] + ".", parts[1], '.');
      CountCharAppend(parts[0], ".", '.');
      CountCharZero(parts[0], '.');
      CountCharZero(parts[1], '.');
    }
  }
}
