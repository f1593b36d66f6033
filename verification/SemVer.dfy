/**
 Semantic versions and their precedence, section 11 of Semantic Versioning
 2.0.0. Build metadata is not represented.
 */
module SemVer {
  import opened Text

  /** A dot-separated pre-release identifier. */
  datatype Identifier = Numeric(n: nat) | Alphanumeric(text: string)

  /** A version; a release has no pre-release identifiers. */
  datatype Version = Version(major: nat, minor: nat, patch: nat, pre: seq<Identifier>)

  // ---------- precedence ----------

  predicate IdentifierLess(a: Identifier, b: Identifier) {
    match (a, b)
    case (Numeric(m), Numeric(n)) => m < n
    case (Numeric(_), Alphanumeric(_)) => true
    case (Alphanumeric(_), Numeric(_)) => false
    case (Alphanumeric(s), Alphanumeric(t)) => LexLess(s, t)
  }

  predicate PreLess(a: seq<Identifier>, b: seq<Identifier>) {
    if b == [] then false
    else if a == [] then true
    else IdentifierLess(a[0], b[0]) || (a[0] == b[0] && PreLess(a[1..], b[1..]))
  }

  predicate NumbersLess(v: Version, w: Version) {
    v.major < w.major ||
    (v.major == w.major && (v.minor < w.minor || (v.minor == w.minor && v.patch < w.patch)))
  }

  predicate SameNumbers(v: Version, w: Version) {
    v.major == w.major && v.minor == w.minor && v.patch == w.patch
  }

  /** Lower precedence: by the three numbers, then any pre-release before the release. */
  predicate Less(v: Version, w: Version) {
    NumbersLess(v, w) ||
    (SameNumbers(v, w) && v.pre != [] && (w.pre == [] || PreLess(v.pre, w.pre)))
  }

  predicate AtMost(v: Version, w: Version) {
    v == w || Less(v, w)
  }

  // ---------- precedence is a total order ----------

  lemma IdentifierOrder(a: Identifier, b: Identifier, c: Identifier)
    ensures !IdentifierLess(a, a)
    ensures a == b || IdentifierLess(a, b) || IdentifierLess(b, a)
    ensures IdentifierLess(a, b) && IdentifierLess(b, c) ==> IdentifierLess(a, c)
  {
    if a.Alphanumeric? {
      LexIrreflexive(a.text);
      if b.Alphanumeric? {
        LexTotal(a.text, b.text);
        if c.Alphanumeric? && LexLess(a.text, b.text) && LexLess(b.text, c.text) {
          LexTransitive(a.text, b.text, c.text);
        }
      }
    }
  }

  lemma {:induction false} PreOrder(a: seq<Identifier>, b: seq<Identifier>, c: seq<Identifier>)
    ensures !PreLess(a, a)
    ensures a == b || PreLess(a, b) || PreLess(b, a)
    ensures PreLess(a, b) && PreLess(b, c) ==> PreLess(a, c)
    decreases |a|
  {
    if a != [] {
      PreOrder(a[1..], if b == [] then [] else b[1..], if c == [] then [] else c[1..]);
      IdentifierOrder(a[0], a[0], a[0]);
      if b != [] {
        if a[0] == b[0] && a[1..] == b[1..] {
          assert a == [a[0]] + a[1..] == b;
        }
        IdentifierOrder(a[0], b[0], if c == [] then b[0] else c[0]);
      }
    }
  }

  /** Precedence orders any two different versions one way, and is transitive. */
  lemma PrecedenceIsTotalOrder(u: Version, v: Version, w: Version)
    ensures !Less(v, v)
    ensures v == w || Less(v, w) || Less(w, v)
    ensures !(Less(v, w) && Less(w, v))
    ensures Less(u, v) && Less(v, w) ==> Less(u, w)
  {
    PreOrder(v.pre, v.pre, v.pre);
    PreOrder(v.pre, w.pre, v.pre);
    PreOrder(u.pre, v.pre, w.pre);
  }

  // ---------- the rules of section 11 ----------

  /** Rule 11.4.1 to 11.4.3: numbers by value, texts by their characters, and numbers before texts. */
  ghost predicate LowerIdentifier(a: Identifier, b: Identifier) {
    || (a.Numeric? && b.Numeric? && a.n < b.n)
    || (a.Numeric? && b.Alphanumeric?)
    || (a.Alphanumeric? && b.Alphanumeric? && (a.text < b.text || exists i :: SmallerAt(a.text, b.text, i)))
  }

  /** The lists agree before position i, where the first one has the lower identifier. */
  ghost predicate LowerAt(a: seq<Identifier>, b: seq<Identifier>, i: int) {
    0 <= i < |a| && i < |b| && a[..i] == b[..i] && LowerIdentifier(a[i], b[i])
  }

  lemma IdentifierLessIff(a: Identifier, b: Identifier)
    ensures IdentifierLess(a, b) <==> LowerIdentifier(a, b)
    ensures LowerIdentifier(a, b) ==> a != b
  {
    if a.Alphanumeric? && b.Alphanumeric? {
      LexLessIff(a.text, b.text);
      LexIrreflexive(a.text);
    }
  }

  /** Rule 11.4.4 and the comparison from left to right: the first difference decides, a proper prefix is lower. */
  lemma {:induction false} PreLessIff(a: seq<Identifier>, b: seq<Identifier>)
    ensures PreLess(a, b) <==> a < b || exists i :: LowerAt(a, b, i)
    decreases |a|
  {
    if a != [] && b != [] {
      IdentifierLessIff(a[0], b[0]);
      if a[0] == b[0] {
        PreLessIff(a[1..], b[1..]);
        SameFirst(a, b);
      } else {
        forall i | LowerAt(a, b, i)
          ensures i == 0
        {
          AgreeBefore(a, b, i);
        }
        assert LowerIdentifier(a[0], b[0]) ==> LowerAt(a, b, 0);
      }
    }
  }

  lemma AgreeBefore(a: seq<Identifier>, b: seq<Identifier>, i: int)
    requires LowerAt(a, b, i)
    ensures i > 0 ==> a[0] == b[0]
  {
    if i > 0 {
      assert a[..i][0] == b[..i][0];
    }
  }

  lemma SameFirst(a: seq<Identifier>, b: seq<Identifier>)
    requires a != [] && b != [] && a[0] == b[0]
    ensures a < b <==> a[1..] < b[1..]
    ensures (exists i :: LowerAt(a, b, i)) <==> exists i :: LowerAt(a[1..], b[1..], i)
  {
    IdentifierLessIff(a[0], b[0]);
    if i :| LowerAt(a, b, i) {
      assert a[1..][..i - 1] == a[..i][1..] && b[1..][..i - 1] == b[..i][1..];
      assert LowerAt(a[1..], b[1..], i - 1);
    }
    if i :| LowerAt(a[1..], b[1..], i) {
      assert a[..i + 1] == [a[0]] + a[1..][..i] && b[..i + 1] == [b[0]] + b[1..][..i];
      assert LowerAt(a, b, i + 1);
    }
  }

  /**
   Section 11 as a whole: the first difference of the three numbers decides; among
   equal ones a pre-release is below the release, and two pre-releases compare by
   their identifiers.
   */
  lemma PrecedenceIff(v: Version, w: Version)
    ensures Less(v, w) <==>
            || v.major < w.major
            || (v.major == w.major && v.minor < w.minor)
            || (v.major == w.major && v.minor == w.minor && v.patch < w.patch)
            || (v.major == w.major && v.minor == w.minor && v.patch == w.patch
                && ((v.pre != [] && w.pre == [])
                    || (v.pre != [] && w.pre != [] && (v.pre < w.pre || exists i :: LowerAt(v.pre, w.pre, i)))))
  {
    PreLessIff(v.pre, w.pre);
  }
}
