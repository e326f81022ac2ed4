/** Strings as Python compares, sorts, splits and joins them. */
module Strings {

  /** Python's `a < b` on `str`: lexicographic by code point, a proper prefix
      being smaller than the longer string. */
  predicate Less(a: string, b: string)
    decreases |a|
  {
    |b| > 0 && (|a| == 0 || a[0] < b[0] || (a[0] == b[0] && Less(a[1..], b[1..])))
  }

  lemma {:induction false} LessIrreflexive(a: string)
    ensures !Less(a, a)
    decreases |a|
  {
    if |a| > 0 {
      LessIrreflexive(a[1..]);
    }
  }

  lemma {:induction false} LessAsymmetric(a: string, b: string)
    requires Less(a, b)
    ensures !Less(b, a)
    decreases |a|
  {
    if |a| > 0 && a[0] == b[0] {
      LessAsymmetric(a[1..], b[1..]);
    }
  }

  lemma {:induction false} LessTransitive(a: string, b: string, c: string)
    requires Less(a, b) && Less(b, c)
    ensures Less(a, c)
    decreases |a|
  {
    if |a| > 0 && a[0] == b[0] && b[0] == c[0] {
      LessTransitive(a[1..], b[1..], c[1..]);
    }
  }

  lemma {:induction false} LessTrichotomous(a: string, b: string)
    requires a != b
    ensures Less(a, b) || Less(b, a)
    decreases |a|
  {
    if |a| > 0 && |b| > 0 && a[0] == b[0] {
      assert a == [a[0]] + a[1..] && b == [b[0]] + b[1..];
      LessTrichotomous(a[1..], b[1..]);
    }
  }

  /** Each element is below every later one: the shape of `sorted(...)` applied
      to the keys of a dict or the members of a set. */
  predicate StrictlySorted(s: seq<string>)
  {
    forall i, j :: 0 <= i < j < |s| ==> Less(s[i], s[j])
  }

  predicate IsLeast(m: string, s: set<string>)
  {
    m in s && forall y :: y in s && y != m ==> Less(m, y)
  }

  lemma {:induction false} LeastExists(s: set<string>)
    requires s != {}
    ensures exists m :: IsLeast(m, s)
    decreases |s|
  {
    var x :| x in s;
    if s == {x} {
      assert IsLeast(x, s);
    } else {
      LeastExists(s - {x});
      var m :| IsLeast(m, s - {x});
      if Less(x, m) {
        forall y | y in s && y != x
          ensures Less(x, y)
        {
          if y != m {
            LessTransitive(x, m, y);
          }
        }
        assert IsLeast(x, s);
      } else {
        LessTrichotomous(x, m);
        assert IsLeast(m, s);
      }
    }
  }

  lemma LeastUnique(s: set<string>)
    ensures forall m1, m2 :: IsLeast(m1, s) && IsLeast(m2, s) ==> m1 == m2
  {
    forall m1, m2 | IsLeast(m1, s) && IsLeast(m2, s)
      ensures m1 == m2
    {
      if m1 != m2 {
        LessAsymmetric(m1, m2);
      }
    }
  }

  /** Python's `sorted(s)` for a set of strings. */
  function SortSet(s: set<string>): (r: seq<string>)
    ensures StrictlySorted(r)
    ensures forall x :: x in r <==> x in s
    ensures |r| == |s|
    decreases |s|
  {
    if s == {} then []
    else
      LeastExists(s);
      LeastUnique(s);
      var m :| IsLeast(m, s);
      var rest := SortSet(s - {m});
      assert forall j :: 0 <= j < |rest| ==> rest[j] in s - {m};
      [m] + rest
  }

  /** `sorted(d)` for a dictionary with string keys: each key once, ascending. */
  function SortedKeys<V>(m: map<string, V>): (keys: seq<string>)
    ensures StrictlySorted(keys) && |keys| == |m| && forall k :: k in keys <==> k in m
    ensures forall i :: 0 <= i < |keys| ==> keys[i] in m
  {
    var keys := SortSet(m.Keys);
    assert forall i :: 0 <= i < |keys| ==> keys[i] in keys;
    keys
  }

  /** A strictly sorted sequence is determined by its elements, so `SortSet(s)`
      is the only strictly sorted enumeration of `s`. */
  lemma {:induction false} SortedUnique(a: seq<string>, b: seq<string>)
    requires StrictlySorted(a) && StrictlySorted(b)
    requires forall x :: x in a <==> x in b
    ensures a == b
    decreases |a|
  {
    assert |a| > 0 ==> a[0] in b;
    assert |b| > 0 ==> b[0] in a;
    if |a| > 0 && |b| > 0 {
      if a[0] != b[0] {
        assert b[0] in a;
        assert a[0] in b;
        var i :| 0 <= i < |a| && a[i] == b[0];
        var j :| 0 <= j < |b| && b[j] == a[0];
        assert Less(a[0], a[i]);
        assert Less(b[0], b[j]);
        LessAsymmetric(a[0], b[0]);
      }
      forall x
        ensures x in a[1..] <==> x in b[1..]
      {
        if x in a[1..] {
          var i :| 1 <= i < |a| && a[i] == x;
          assert Less(a[0], a[i]);
          LessIrreflexive(a[0]);
          assert x in b && x != b[0];
          var j :| 0 <= j < |b| && b[j] == x;
          assert j != 0;
          assert x == b[1..][j - 1];
        }
        if x in b[1..] {
          var j :| 1 <= j < |b| && b[j] == x;
          assert Less(b[0], b[j]);
          LessIrreflexive(b[0]);
          assert x in a && x != a[0];
          var i :| 0 <= i < |a| && a[i] == x;
          assert i != 0;
          assert x == a[1..][i - 1];
        }
      }
      SortedUnique(a[1..], b[1..]);
      assert a == [a[0]] + a[1..] && b == [b[0]] + b[1..];
    }
  }

  lemma SortSetOf(s: set<string>, r: seq<string>)
    requires StrictlySorted(r)
    requires forall x :: x in r <==> x in s
    ensures SortSet(s) == r
  {
    SortedUnique(SortSet(s), r);
  }

  /** Python's `\s` for `str` patterns: the characters `str.isspace` accepts. */
  predicate IsSpace(c: char)
  {
    var n := c as int;
    || 0x09 <= n <= 0x0D || 0x1C <= n <= 0x20 || n == 0x85 || n == 0xA0 || n == 0x1680
    || 0x2000 <= n <= 0x200A || n == 0x2028 || n == 0x2029 || n == 0x202F || n == 0x205F
    || n == 0x3000
  }

  /** Python's `s.split(c)` with a one-character separator. */
  function Split(s: string, c: char): (parts: seq<string>)
    ensures |parts| > 0
    ensures forall i :: 0 <= i < |parts| ==> c !in parts[i]
    decreases |s|
  {
    if |s| == 0 then [""]
    else
      var rest := Split(s[1..], c);
      if s[0] == c then [""] + rest
      else [[s[0]] + rest[0]] + rest[1..]
  }

  /** Python's `c.join(parts)` with a one-character separator. */
  function Join(parts: seq<string>, c: char): string
    decreases |parts|
  {
    if |parts| == 0 then ""
    else if |parts| == 1 then parts[0]
    else parts[0] + [c] + Join(parts[1..], c)
  }

  lemma {:induction false} JoinSplit(s: string, c: char)
    ensures Join(Split(s, c), c) == s
    decreases |s|
  {
    if |s| > 0 {
      JoinSplit(s[1..], c);
      var rest := Split(s[1..], c);
      if s[0] != c {
        if |rest| > 1 {
          assert Join(rest, c) == rest[0] + [c] + Join(rest[1..], c);
        }
      }
    }
  }

  lemma {:induction false} SplitJoin(parts: seq<string>, c: char)
    requires |parts| > 0
    requires forall i :: 0 <= i < |parts| ==> c !in parts[i]
    ensures Split(Join(parts, c), c) == parts
    decreases |parts|, |parts[0]|
  {
    if |parts[0]| > 0 {
      var p := parts[0];
      var tail := [p[1..]] + parts[1..];
      assert Join(parts, c) == [p[0]] + Join(tail, c) by {
        if |parts| > 1 {
          assert Join(tail, c) == p[1..] + [c] + Join(parts[1..], c);
        }
      }
      assert c !in p[1..] by {
        assert forall x :: x in p[1..] ==> x in p;
      }
      SplitJoin(tail, c);
      var s := Join(parts, c);
      assert s[0] == p[0] && s[1..] == Join(tail, c);
      assert Split(s, c) == [[p[0]] + Split(s[1..], c)[0]] + Split(s[1..], c)[1..];
      assert [p[0]] + p[1..] == p;
      assert parts == [p] + tail[1..];
    } else if |parts| > 1 {
      SplitJoin(parts[1..], c);
      assert Join(parts, c) == [c] + Join(parts[1..], c);
      assert Join(parts, c)[1..] == Join(parts[1..], c);
    }
  }

  /** Every character of every part of `Split(s, c)` is a character of `s`. */
  lemma {:induction false} SplitChars(s: string, c: char)
    ensures forall i, x :: 0 <= i < |Split(s, c)| && x in Split(s, c)[i] ==> x in s
    decreases |s|
  {
    if |s| > 0 {
      SplitChars(s[1..], c);
      var rest := Split(s[1..], c);
      var parts := Split(s, c);
      forall i, x | 0 <= i < |parts| && x in parts[i]
        ensures x in s
      {
        assert s == [s[0]] + s[1..];
        if s[0] == c {
          assert parts[i] == ([""] + rest)[i];
          if i > 0 {
            assert parts[i] == rest[i - 1];
          }
        } else if i == 0 {
          assert parts[0] == [s[0]] + rest[0];
        } else {
          assert parts[i] == rest[i];
        }
      }
    }
  }

  /** Every character of `Join(parts, c)` lies in any set holding `c` and the
      characters of every part. */
  lemma {:induction false} JoinChars(parts: seq<string>, c: char, chars: set<char>)
    requires c in chars
    requires forall i, x :: 0 <= i < |parts| && x in parts[i] ==> x in chars
    ensures forall x :: x in Join(parts, c) ==> x in chars
    decreases |parts|
  {
    if |parts| > 1 {
      JoinChars(parts[1..], c, chars);
      assert forall x :: x in parts[0] ==> x in chars;
      assert Join(parts, c) == parts[0] + [c] + Join(parts[1..], c);
    } else if |parts| == 1 {
      assert forall x :: x in parts[0] ==> x in chars;
    }
  }

  /** The first part of `Split(s, c)` is the text of `s` before its first `c`,
      or all of `s` when there is none. */
  lemma {:induction false} SplitFirst(s: string, c: char)
    ensures var head := Split(s, c)[0];
      |head| <= |s| && head == s[..|head|] && (|head| == |s| <==> c !in s) && (|head| < |s| ==> s[|head|] == c)
    decreases |s|
  {
    if |s| > 0 {
      SplitFirst(s[1..], c);
      assert s == [s[0]] + s[1..];
    }
  }

  /** A character that is neither the separator nor in any part is not in the join. */
  lemma {:induction false} JoinAvoids(parts: seq<string>, c: char, x: char)
    requires x != c
    requires forall i :: 0 <= i < |parts| ==> x !in parts[i]
    ensures x !in Join(parts, c)
    decreases |parts|
  {
    if |parts| > 1 {
      JoinAvoids(parts[1..], c, x);
      assert x !in parts[0];
    }
  }

  /** A common prefix does not change the order. */
  lemma {:induction false} LessPrefix(p: string, a: string, b: string)
    ensures Less(p + a, p + b) <==> Less(a, b)
    decreases |p|
  {
    if |p| == 0 {
      assert p + a == a && p + b == b;
    } else {
      LessPrefix(p[1..], a, b);
      assert (p + a)[0] == p[0] && (p + b)[0] == p[0];
      assert (p + a)[1..] == p[1..] + a && (p + b)[1..] == p[1..] + b;
    }
  }

  lemma JoinTwo(a: string, b: string, c: char)
    ensures Join([a, b], c) == a + [c] + b
  {
    assert [a, b][1..] == [b];
  }

  lemma JoinFour(a: string, b: string, d: string, e: string, c: char)
    ensures Join([a, b, d, e], c) == a + [c] + b + [c] + d + [c] + e
  {
    var parts := [a, b, d, e];
    assert parts[3..] == [e] && parts[2..] == [d, e] && parts[1..] == [b, d, e];
    assert Join(parts[2..], c) == d + [c] + e;
    assert Join(parts[1..], c) == b + [c] + (d + [c] + e);
  }

  /** Equal strings with the same head and tail have the same middle. */
  lemma CancelEnds(head: string, x: string, y: string, tail: string)
    requires head + x + tail == head + y + tail
    ensures x == y
  {
    assert |x| == |y|;
    assert x == (head + x + tail)[|head|..|head| + |x|];
    assert y == (head + y + tail)[|head|..|head| + |y|];
  }

  /** Past the first element of `[first] + rest` come the elements of `rest`. */
  lemma ConsIndex<T>(first: T, rest: seq<T>, j: int)
    requires 1 <= j <= |rest|
    ensures ([first] + rest)[j] == rest[j - 1]
  {
  }
}
