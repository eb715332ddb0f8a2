/**
 * Python's ordering of `str` values (code point by code point, a proper prefix first) and
 * `sorted(set(xs))`, the sort-and-deduplicate step of the URL cleaners.
 */
module LexOrder {

  /** Python's `a < b` on strings. */
  predicate Less(a: string, b: string)
    decreases |a|
  {
    if a == [] then b != []
    else b != [] && (a[0] < b[0] || (a[0] == b[0] && Less(a[1..], b[1..])))
  }

  lemma {:induction false} LessIrreflexive(a: string)
    ensures !Less(a, a)
    decreases |a|
  {
    if a != [] {
      LessIrreflexive(a[1..]);
    }
  }

  lemma {:induction false} LessTransitive(a: string, b: string, c: string)
    requires Less(a, b) && Less(b, c)
    ensures Less(a, c)
    decreases |a|
  {
    if a != [] && a[0] == b[0] && b[0] == c[0] {
      LessTransitive(a[1..], b[1..], c[1..]);
    }
  }

  lemma {:induction false} LessTotal(a: string, b: string)
    ensures a == b || Less(a, b) || Less(b, a)
    decreases |a|
  {
    if a != [] && b != [] && a[0] == b[0] {
      LessTotal(a[1..], b[1..]);
      if a[1..] == b[1..] {
        assert a == [a[0]] + a[1..] && b == [b[0]] + b[1..];
      }
    }
  }

  /** The strings occurring in `s`. */
  function Elems(s: seq<string>): set<string> {
    set x | x in s
  }

  lemma ElemsEmpty(s: seq<string>)
    ensures Elems(s) == {} <==> s == []
  {
    if s != [] {
      assert s[0] in Elems(s);
    }
  }

  /** Sorted with no duplicates: every earlier element is smaller than every later one. */
  predicate StrictlyAscending(s: seq<string>) {
    forall i, j :: 0 <= i < j < |s| ==> Less(s[i], s[j])
  }

  /** Inserts `x` at its place in an ascending sequence, unless it is already there. */
  function Insert(x: string, s: seq<string>): (r: seq<string>)
    requires StrictlyAscending(s)
    ensures StrictlyAscending(r)
    ensures Elems(r) == Elems(s) + {x}
  {
    if s == [] then [x]
    else if x == s[0] then
      assert Elems(s) == Elems(s) + {x};
      s
    else if Less(x, s[0]) then
      forall j | 0 < j < |s| ensures Less(x, s[j]) {
        LessTransitive(x, s[0], s[j]);
      }
      assert Elems([x] + s) == Elems(s) + {x};
      [x] + s
    else
      LessTotal(x, s[0]);
      var t := Insert(x, s[1..]);
      forall j | 0 <= j < |t| ensures Less(s[0], t[j]) {
        assert t[j] in Elems(t);
        if t[j] != x {
          var k :| 0 <= k < |s[1..]| && s[1..][k] == t[j];
          assert s[k + 1] == t[j];
        }
      }
      assert Elems(s) == {s[0]} + Elems(s[1..]);
      assert Elems([s[0]] + t) == {s[0]} + Elems(t);
      [s[0]] + t
  }

  /** Python's `sorted(set(xs))`. */
  function SortedSet(xs: seq<string>): (r: seq<string>)
    ensures StrictlyAscending(r)
    ensures Elems(r) == Elems(xs)
  {
    if xs == [] then []
    else
      var r := Insert(xs[0], SortedSet(xs[1..]));
      assert Elems(xs) == Elems(xs[1..]) + {xs[0]};
      r
  }

  /** A strictly ascending sequence is determined by the set of its elements. */
  lemma {:induction false} AscendingUnique(a: seq<string>, b: seq<string>)
    requires StrictlyAscending(a) && StrictlyAscending(b)
    requires Elems(a) == Elems(b)
    ensures a == b
    decreases |a|
  {
    ElemsEmpty(a);
    ElemsEmpty(b);
    if a != [] {
      // a[0] and b[0] are both the least element of the common set
      assert a[0] in Elems(b);
      assert b[0] in Elems(a);
      if a[0] != b[0] {
        var i :| 0 <= i < |b| && b[i] == a[0];
        var j :| 0 <= j < |a| && a[j] == b[0];
        assert Less(a[0], b[0]) by {
          assert j > 0;
        }
        assert Less(b[0], a[0]) by {
          assert i > 0;
        }
        LessTransitive(a[0], b[0], a[0]);
        LessIrreflexive(a[0]);
      }
      assert Elems(a[1..]) == Elems(b[1..]) by {
        forall y | y in Elems(a[1..]) ensures y in Elems(b[1..]) {
          var k :| 0 <= k < |a[1..]| && a[1..][k] == y;
          assert a[k + 1] == y;
          assert y in Elems(b);
          var m :| 0 <= m < |b| && b[m] == y;
          assert m != 0 by { LessIrreflexive(a[0]); }
          assert b[1..][m - 1] == y;
        }
        forall y | y in Elems(b[1..]) ensures y in Elems(a[1..]) {
          var k :| 0 <= k < |b[1..]| && b[1..][k] == y;
          assert b[k + 1] == y;
          assert y in Elems(a);
          var m :| 0 <= m < |a| && a[m] == y;
          assert m != 0 by { LessIrreflexive(b[0]); }
          assert a[1..][m - 1] == y;
        }
      }
      AscendingUnique(a[1..], b[1..]);
      assert a == [a[0]] + a[1..] && b == [b[0]] + b[1..];
    }
  }
}
