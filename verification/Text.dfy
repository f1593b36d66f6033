/**
 String operations that several components rely on: splitting at a separator,
 joining, prefix tests, and the lexicographic order used for dictionary keys.
 */
module Text {

  datatype Option<+T> = None | Some(value: T)

  // ---------- splitting and joining ----------

  /** The pieces of `s` between occurrences of `sep`; never empty. */
  function Split(s: string, sep: char): (parts: seq<string>)
    ensures |parts| >= 1
  {
    if s == "" then [""]
    else
      var rest := Split(s[1..], sep);
      if s[0] == sep then [""] + rest else [[s[0]] + rest[0]] + rest[1..]
  }

  function Join(parts: seq<string>, sep: char): string {
    if parts == [] then ""
    else if |parts| == 1 then parts[0]
    else parts[0] + [sep] + Join(parts[1..], sep)
  }

  ghost predicate Separable(parts: seq<string>, sep: char) {
    forall i :: 0 <= i < |parts| ==> sep !in parts[i]
  }

  lemma {:induction false} SplitSeparable(s: string, sep: char)
    ensures Separable(Split(s, sep), sep)
  {
    if s != "" {
      SplitSeparable(s[1..], sep);
    }
  }

  lemma {:induction false} SplitUnbroken(s: string, sep: char)
    requires sep !in s
    ensures Split(s, sep) == [s]
  {
    if s != "" {
      SplitUnbroken(s[1..], sep);
      assert [s[0]] + s[1..] == s;
    }
  }

  /** Splitting distributes over a separator placed between any two strings. */
  lemma {:induction false} SplitAtSeparator(a: string, b: string, sep: char)
    ensures Split(a + [sep] + b, sep) == Split(a, sep) + Split(b, sep)
  {
    var s := a + [sep] + b;
    if a == "" {
      assert s[1..] == b;
    } else {
      assert s[1..] == a[1..] + [sep] + b;
      SplitAtSeparator(a[1..], b, sep);
    }
  }

  lemma {:induction false} SplitOfJoin(parts: seq<string>, sep: char)
    requires parts != [] && Separable(parts, sep)
    ensures Split(Join(parts, sep), sep) == parts
  {
    if |parts| == 1 {
      SplitUnbroken(parts[0], sep);
    } else {
      SplitAtSeparator(parts[0], Join(parts[1..], sep), sep);
      SplitUnbroken(parts[0], sep);
      SplitOfJoin(parts[1..], sep);
    }
  }

  lemma {:induction false} JoinOfSplit(s: string, sep: char)
    ensures Join(Split(s, sep), sep) == s
  {
    if s != "" {
      JoinOfSplit(s[1..], sep);
      var rest := Split(s[1..], sep);
      if s[0] == sep {
        assert ([""] + rest)[1..] == rest;
      } else {
      }
      assert [s[0]] + s[1..] == s;
    }
  }

  lemma {:induction false} JoinAppend(xs: seq<string>, ys: seq<string>, sep: char)
    requires xs != [] && ys != []
    ensures Join(xs + ys, sep) == Join(xs, sep) + [sep] + Join(ys, sep)
  {
    var s := xs + ys;
    assert s[1..] == xs[1..] + ys;
    if |xs| > 1 {
      JoinAppend(xs[1..], ys, sep);
    }
  }

  /** A character other than the separator that occurs in no piece does not occur in the joined string. */
  lemma {:induction false} JoinAvoids(parts: seq<string>, sep: char, c: char)
    requires c != sep && Separable(parts, c)
    ensures c !in Join(parts, sep)
  {
    if |parts| > 1 {
      JoinAvoids(parts[1..], sep, c);
    }
  }

  lemma {:induction false} SplitAvoids(s: string, sep: char, c: char)
    requires c !in s
    ensures Separable(Split(s, sep), c)
  {
    if s != "" {
      SplitAvoids(s[1..], sep, c);
    }
  }

  // ---------- prefixes ----------

  predicate StartsWith(s: string, prefix: string) {
    prefix <= s
  }

  predicate EndsWith(s: string, c: char) {
    s != "" && s[|s| - 1] == c
  }

  // ---------- lexicographic order ----------

  /** Order of strings by code point, a proper prefix first. */
  predicate LexLess(a: string, b: string) {
    if b == "" then false
    else if a == "" then true
    else a[0] < b[0] || (a[0] == b[0] && LexLess(a[1..], b[1..]))
  }

  /** The strings agree before position i, where the first one has the smaller character. */
  ghost predicate SmallerAt(a: string, b: string, i: int) {
    0 <= i < |a| && i < |b| && a[..i] == b[..i] && a[i] < b[i]
  }

  lemma SameFront(a: string, b: string, i: int)
    requires SmallerAt(a, b, i)
    ensures i > 0 ==> a[0] == b[0]
  {
    if i > 0 {
      assert a[..i][0] == b[..i][0];
    }
  }

  /** A string comes before those it is a proper prefix of, and otherwise the first difference decides. */
  lemma {:induction false} LexLessIff(a: string, b: string)
    ensures LexLess(a, b) <==> a < b || exists i :: SmallerAt(a, b, i)
  {
    if a != "" && b != "" {
      if a[0] == b[0] {
        LexLessIff(a[1..], b[1..]);
        assert a < b <==> a[1..] < b[1..];
        forall i
          ensures SmallerAt(a[1..], b[1..], i) <==> i >= 0 && SmallerAt(a, b, i + 1)
        {
          if 0 <= i < |a| - 1 && i < |b| - 1 {
            assert a[..i + 1] == [a[0]] + a[1..][..i] && b[..i + 1] == [b[0]] + b[1..][..i];
          }
        }
        assert forall i :: SmallerAt(a, b, i) ==> i > 0 && SmallerAt(a[1..], b[1..], i - 1);
      } else {
        forall i | SmallerAt(a, b, i)
          ensures i == 0
        {
          SameFront(a, b, i);
        }
        assert a[0] < b[0] ==> SmallerAt(a, b, 0);
      }
    }
  }

  lemma {:induction false} LexIrreflexive(a: string)
    ensures !LexLess(a, a)
  {
    if a != "" {
      LexIrreflexive(a[1..]);
    }
  }

  lemma {:induction false} LexTransitive(a: string, b: string, c: string)
    requires LexLess(a, b) && LexLess(b, c)
    ensures LexLess(a, c)
  {
    if a != "" && a[0] == b[0] == c[0] {
      LexTransitive(a[1..], b[1..], c[1..]);
    }
  }

  lemma {:induction false} LexTotal(a: string, b: string)
    ensures a == b || LexLess(a, b) || LexLess(b, a)
  {
    if a != "" && b != "" && a[0] == b[0] {
      LexTotal(a[1..], b[1..]);
      if a[1..] == b[1..] {
        assert a == [a[0]] + a[1..] == b;
      }
    }
  }

  lemma {:induction false} LexPrefix(a: string, b: string)
    requires a < b
    ensures LexLess(a, b)
  {
    if a != "" {
      assert a[0] == b[0];
      LexPrefix(a[1..], b[1..]);
    }
  }

  /** Every non-empty finite set of strings has a least element. */
  lemma {:induction false} LeastExists(keys: set<string>) returns (least: string)
    requires keys != {}
    ensures least in keys && forall k :: k in keys && k != least ==> LexLess(least, k)
    decreases |keys|
  {
    var any :| any in keys;
    if keys == {any} {
      least := any;
    } else {
      var rest := keys - {any};
      assert keys == rest + {any};
      var candidate := LeastExists(rest);
      LexTotal(any, candidate);
      least := if LexLess(any, candidate) then any else candidate;
      forall k | k in keys && k != least
        ensures LexLess(least, k)
      {
        if least == any && k != candidate {
          LexTransitive(any, candidate, k);
        }
      }
    }
  }
}
