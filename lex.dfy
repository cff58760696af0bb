/**
 * Lexicographic order on strings, the order in which Python compares `str`
 * values (code point by code point, a proper prefix first) and in which a
 * pandas group-by enumerates its string keys.
 */
module Lex {

  predicate Less(a: string, b: string)
  {
    if |a| == 0 then |b| > 0
    else if |b| == 0 then false
    else if a[0] != b[0] then a[0] < b[0]
    else Less(a[1..], b[1..])
  }

  lemma {:induction false} LessIrreflexive(a: string)
    ensures !Less(a, a)
  {
    if |a| > 0 {
      LessIrreflexive(a[1..]);
    }
  }

  lemma {:induction false} LessTransitive(a: string, b: string, c: string)
    requires Less(a, b) && Less(b, c)
    ensures Less(a, c)
  {
    if |a| > 0 && |b| > 0 && |c| > 0 && a[0] == b[0] && b[0] == c[0] {
      LessTransitive(a[1..], b[1..], c[1..]);
    }
  }

  /** Any two different strings are ordered one way or the other. */
  lemma {:induction false} LessTotal(a: string, b: string)
    ensures a == b || Less(a, b) || Less(b, a)
  {
    if |a| > 0 && |b| > 0 && a[0] == b[0] {
      LessTotal(a[1..], b[1..]);
      assert a == [a[0]] + a[1..] && b == [b[0]] + b[1..];
    }
  }

  /** Strictly increasing, hence also free of duplicates. */
  predicate StrictlySorted(s: seq<string>)
  {
    forall i, j :: 0 <= i < j < |s| ==> Less(s[i], s[j])
  }

  /** Adds `x` to a sorted sequence, where it belongs, unless it is already there. */
  function Insert(x: string, s: seq<string>): seq<string>
  {
    if s == [] then [x]
    else if x == s[0] then s
    else if Less(x, s[0]) then [x] + s
    else [s[0]] + Insert(x, s[1..])
  }

  /** Inserting into a strictly sorted sequence keeps it strictly sorted and adds exactly `x`. */
  lemma {:induction false} InsertSpec(x: string, s: seq<string>)
    requires StrictlySorted(s)
    ensures StrictlySorted(Insert(x, s))
    ensures forall y :: y in Insert(x, s) <==> y == x || y in s
  {
    if s == [] || x == s[0] {
    } else if Less(x, s[0]) {
      forall j | 0 < j < |s|
        ensures Less(x, s[j])
      {
        LessTransitive(x, s[0], s[j]);
      }
    } else {
      var rest := Insert(x, s[1..]);
      InsertSpec(x, s[1..]);
      assert Less(s[0], x) by {
        LessTotal(x, s[0]);
      }
      forall y | y in rest
        ensures Less(s[0], y)
      {
        if y != x {
          var k :| 1 <= k < |s| && s[k] == y;
        }
      }
      assert Insert(x, s) == [s[0]] + rest;
    }
  }

  /**
   * The distinct keys of `keys` in the order a group-by enumerates them:
   * ascending, each once.
   */
  function SortedUnique(keys: seq<string>): seq<string>
  {
    if keys == [] then [] else Insert(keys[0], SortedUnique(keys[1..]))
  }

  /** The group-by keys are strictly ascending and are exactly the keys that occur. */
  lemma {:induction false} SortedUniqueSpec(keys: seq<string>)
    ensures StrictlySorted(SortedUnique(keys))
    ensures forall y :: y in SortedUnique(keys) <==> y in keys
  {
    if keys != [] {
      SortedUniqueSpec(keys[1..]);
      InsertSpec(keys[0], SortedUnique(keys[1..]));
      assert keys == [keys[0]] + keys[1..];
    }
  }
}
