/**
 * Java's natural ordering of `String` (`String.compareTo`) and the
 * `TreeSet<String>` built on it, kept as a strictly ascending sequence.
 * A Java string is a sequence of UTF-16 code units, and `compareTo`
 * compares those, so a character above U+FFFF, stored as a surrogate pair
 * starting at 0xD800..0xDBFF, sorts before the characters U+E000..U+FFFF.
 */
module StringOrder {

  /** The UTF-16 code units of one character: one unit up to U+FFFF, a surrogate pair above. */
  function CodeUnits(c: char): (r: seq<int>)
    ensures |r| == 1 <==> (c as int) < 0x1_0000
    ensures |r| == 1 || |r| == 2
    ensures |r| == 1 ==> !(0xD800 <= r[0] < 0xDC00)
    ensures |r| == 2 ==> 0xD800 <= r[0] < 0xDC00 && 0xDC00 <= r[1] < 0xE000
  {
    var v := c as int;
    if v < 0x1_0000 then [v]
    else [0xD800 + (v - 0x1_0000) / 0x400, 0xDC00 + (v - 0x1_0000) % 0x400]
  }

  /** Two characters with the same code units are the same character. */
  lemma CodeUnitsInjective(c: char, d: char)
    requires CodeUnits(c) == CodeUnits(d)
    ensures c == d
  {
    var u := CodeUnits(c);
    if |u| == 2 {
      var v, w := c as int - 0x1_0000, d as int - 0x1_0000;
      assert v == (v / 0x400) * 0x400 + v % 0x400;
      assert w == (w / 0x400) * 0x400 + w % 0x400;
    }
  }

  /** The code units of a string: the Java `String` a Dafny string stands for. */
  function Utf16(s: string): seq<int>
    decreases |s|
  {
    if s == [] then [] else CodeUnits(s[0]) + Utf16(s[1..])
  }

  /** Different strings have different code units. */
  lemma {:induction false} Utf16Injective(a: string, b: string)
    requires Utf16(a) == Utf16(b)
    ensures a == b
    decreases |a|
  {
    if a != [] && b != [] {
      var ua, ub := CodeUnits(a[0]), CodeUnits(b[0]);
      assert Utf16(a)[0] == ua[0] && Utf16(b)[0] == ub[0];
      assert |ua| == |ub|;
      assert ua == Utf16(a)[..|ua|] && ub == Utf16(b)[..|ub|];
      CodeUnitsInjective(a[0], b[0]);
      assert Utf16(a[1..]) == Utf16(a)[|ua|..] && Utf16(b[1..]) == Utf16(b)[|ub|..];
      Utf16Injective(a[1..], b[1..]);
      assert a == [a[0]] + a[1..] && b == [b[0]] + b[1..];
    }
  }

  /** Lexicographic order of code-unit sequences: the first differing unit decides, else the shorter comes first. */
  predicate UnitsLess(a: seq<int>, b: seq<int>)
    decreases |a|
  {
    if |a| == 0 then |b| > 0
    else if |b| == 0 then false
    else if a[0] != b[0] then a[0] < b[0]
    else UnitsLess(a[1..], b[1..])
  }

  lemma {:induction false} UnitsLessIrreflexive(a: seq<int>)
    ensures !UnitsLess(a, a)
    decreases |a|
  {
    if |a| > 0 {
      UnitsLessIrreflexive(a[1..]);
    }
  }

  lemma {:induction false} UnitsLessTransitive(a: seq<int>, b: seq<int>, c: seq<int>)
    requires UnitsLess(a, b) && UnitsLess(b, c)
    ensures UnitsLess(a, c)
    decreases |a|
  {
    if |a| > 0 && |b| > 0 && |c| > 0 && a[0] == b[0] && b[0] == c[0] {
      UnitsLessTransitive(a[1..], b[1..], c[1..]);
    }
  }

  lemma {:induction false} UnitsLessTotal(a: seq<int>, b: seq<int>)
    requires a != b
    ensures UnitsLess(a, b) || UnitsLess(b, a)
    decreases |a|
  {
    if |a| > 0 && |b| > 0 && a[0] == b[0] {
      assert a == [a[0]] + a[1..] && b == [b[0]] + b[1..];
      UnitsLessTotal(a[1..], b[1..]);
    }
  }

  /** `a.compareTo(b) < 0`. */
  predicate Less(a: string, b: string)
  {
    UnitsLess(Utf16(a), Utf16(b))
  }

  lemma LessIrreflexive(a: string)
    ensures !Less(a, a)
  {
    UnitsLessIrreflexive(Utf16(a));
  }

  lemma LessTransitive(a: string, b: string, c: string)
    requires Less(a, b) && Less(b, c)
    ensures Less(a, c)
  {
    UnitsLessTransitive(Utf16(a), Utf16(b), Utf16(c));
  }

  /** Two different strings are ordered one way or the other: `compareTo` is a total order. */
  lemma LessTotal(a: string, b: string)
    requires a != b
    ensures Less(a, b) || Less(b, a)
  {
    if Utf16(a) == Utf16(b) {
      Utf16Injective(a, b);
    }
    UnitsLessTotal(Utf16(a), Utf16(b));
  }

  /** A character above U+FFFF sorts before U+FFFF, as its first code unit is a high surrogate. */
  lemma SupplementaryBeforeHighBmp()
    ensures Less("/\U{10000}", "/\U{FFFF}")
    ensures !Less("/\U{FFFF}", "/\U{10000}")
  {
    assert Utf16("/\U{10000}") == [0x2F, 0xD800, 0xDC00];
    assert Utf16("/\U{FFFF}") == [0x2F, 0xFFFF];
  }

  lemma LessAsymmetric(a: string, b: string)
    requires Less(a, b)
    ensures !Less(b, a)
  {
    if Less(b, a) {
      LessTransitive(a, b, a);
      LessIrreflexive(a);
    }
  }

  /** The iteration order of a `TreeSet<String>`: ascending, no element twice. */
  ghost predicate StrictlySorted(s: seq<string>)
  {
    forall i, j :: 0 <= i < j < |s| ==> Less(s[i], s[j])
  }

  /** `TreeSet.add`: the element goes to its place in the order; an element already present leaves the set as it was. */
  function Insert(s: seq<string>, x: string): (r: seq<string>)
    requires StrictlySorted(s)
    ensures StrictlySorted(r)
    ensures forall y :: y in r <==> y in s || y == x
    ensures x in s ==> r == s
    ensures x !in s ==> |r| == |s| + 1
  {
    if s == [] then [x]
    else if x == s[0] then s
    else if Less(x, s[0]) then
      assert forall j :: 0 <= j < |s| ==> Less(x, s[j]) by {
        forall j | 0 < j < |s| {
          LessTransitive(x, s[0], s[j]);
        }
      }
      assert x !in s by {
        LessIrreflexive(x);
      }
      [x] + s
    else
      LessTotal(x, s[0]);
      var tail := Insert(s[1..], x);
      assert forall y :: y in tail ==> Less(s[0], y);
      assert x in s ==> [s[0]] + tail == s by {
        if x in s {
          assert x in s[1..];
          assert s == [s[0]] + s[1..];
        }
      }
      [s[0]] + tail
  }

  /** A strictly sorted sequence is determined by its elements: there is exactly one ascending order of a set of strings. */
  lemma {:induction false} SortedUnique(a: seq<string>, b: seq<string>)
    requires StrictlySorted(a) && StrictlySorted(b)
    requires forall y :: y in a <==> y in b
    ensures a == b
    decreases |a|
  {
    if a == [] {
      assert forall k :: 0 <= k < |b| ==> b[k] in a;
    } else {
      assert b != [] by { assert a[0] in b; }
      assert a[0] in b && b[0] in a;
      if a[0] != b[0] {
        var i :| 0 <= i < |a| && a[i] == b[0];
        var j :| 0 <= j < |b| && b[j] == a[0];
        assert i > 0 && j > 0;
        LessAsymmetric(a[0], a[i]);
        assert false;
      }
      forall y
        ensures y in a[1..] <==> y in b[1..]
      {
        if y in a[1..] {
          var k :| 1 <= k < |a| && a[k] == y;
          LessIrreflexive(a[0]);
          assert y != a[0];
          assert y in b;
        }
        if y in b[1..] {
          var k :| 1 <= k < |b| && b[k] == y;
          LessIrreflexive(b[0]);
          assert y != b[0];
          assert y in a;
        }
      }
      SortedUnique(a[1..], b[1..]);
      assert a == [a[0]] + a[1..] && b == [b[0]] + b[1..];
    }
  }

}
