/**
 Version strings of modules and providers: which ones are accepted, which ones
 are betas, and the order of the released ones.
 */
module VersionText {
  import opened Text
  import opened Decimal

  /** What an end-of-input anchor leaves to match: a single final line feed is ignored. */
  function BeforeFinalNewline(s: string): (t: string)
    ensures t <= s && |s| <= |t| + 1
  {
    if EndsWith(s, '\n') then s[..|s| - 1] else s
  }

  // ---------- three numbers ----------

  /** The three written numbers of a version, leading zeros included. */
  datatype Numerals = Numerals(major: string, minor: string, patch: string) {
    predicate Valid() {
      IsNumeral(major) && IsNumeral(minor) && IsNumeral(patch)
    }

    function Text(): string {
      major + "." + minor + "." + patch
    }

    function Numbers(): Release
      requires Valid()
    {
      Release(Value(major), Value(minor), Value(patch))
    }
  }

  datatype Release = Release(major: nat, minor: nat, patch: nat)

  /** Released versions are ordered by their three numbers. */
  predicate AtMost(a: Release, b: Release) {
    a.major < b.major ||
    (a.major == b.major && (a.minor < b.minor || (a.minor == b.minor && a.patch <= b.patch)))
  }

  /** The length of the longest run of digits at the start of `s`. */
  function DigitRun(s: string): (n: nat)
    ensures n <= |s|
  {
    if s == "" || !IsDigit(s[0]) then 0 else 1 + DigitRun(s[1..])
  }

  lemma {:induction false} DigitRunEnds(s: string)
    ensures AllDigits(s[..DigitRun(s)]) && (DigitRun(s) < |s| ==> !IsDigit(s[DigitRun(s)]))
  {
    if s != "" && IsDigit(s[0]) {
      DigitRunEnds(s[1..]);
      assert forall i :: 1 <= i < DigitRun(s) ==> s[..DigitRun(s)][i] == s[1..][..DigitRun(s[1..])][i - 1];
    }
  }

  lemma DigitRunIs(s: string, n: nat)
    requires n <= |s| && AllDigits(s[..n]) && (n < |s| ==> !IsDigit(s[n]))
    ensures DigitRun(s) == n
  {
    var m := DigitRun(s);
    DigitRunEnds(s);
    assert forall i :: 0 <= i < n ==> s[..n][i] == s[i];
    assert forall i :: 0 <= i < m ==> s[..m][i] == s[i];
  }

  /** A number followed by a dot: the number, and what follows the dot. */
  function NumberThenDot(s: string): Option<(string, string)> {
    var n := DigitRun(s);
    if n == 0 || n == |s| || s[n] != '.' then None else Some((s[..n], s[n + 1..]))
  }

  /** A number: the number, and what follows it. */
  function NumberFirst(s: string): Option<(string, string)> {
    var n := DigitRun(s);
    if n == 0 then None else Some((s[..n], s[n..]))
  }

  /** Reads three dot-separated numbers, returning them and what follows. */
  function ReadNumerals(s: string): Option<(Numerals, string)> {
    match NumberThenDot(s)
    case None => None
    case Some((major, s1)) =>
      match NumberThenDot(s1)
      case None => None
      case Some((minor, s2)) =>
        match NumberFirst(s2)
        case None => None
        case Some((patch, rest)) => Some((Numerals(major, minor, patch), rest))
  }

  lemma NumberThenDotSound(s: string)
    requires NumberThenDot(s).Some?
    ensures var (number, rest) := NumberThenDot(s).value; IsNumeral(number) && s == number + "." + rest
  {
    DigitRunEnds(s);
  }

  lemma NumberFirstSound(s: string)
    requires NumberFirst(s).Some?
    ensures var (number, rest) := NumberFirst(s).value;
            IsNumeral(number) && s == number + rest && (rest != "" ==> !IsDigit(rest[0]))
  {
    DigitRunEnds(s);
  }

  lemma NumberThenDotComplete(number: string, rest: string)
    requires IsNumeral(number)
    ensures NumberThenDot(number + "." + rest) == Some((number, rest))
  {
    var s := number + "." + rest;
    assert s[..|number|] == number && s[|number| + 1..] == rest;
    DigitRunIs(s, |number|);
  }

  lemma NumberFirstComplete(number: string, rest: string)
    requires IsNumeral(number) && (rest != "" ==> !IsDigit(rest[0]))
    ensures NumberFirst(number + rest) == Some((number, rest))
  {
    var s := number + rest;
    assert s[..|number|] == number && s[|number|..] == rest;
    DigitRunIs(s, |number|);
  }

  lemma JoinThree(a: string, b: string, c: string, rest: string, s: string, s1: string, s2: string)
    requires s == a + "." + s1 && s1 == b + "." + s2 && s2 == c + rest
    ensures s == Numerals(a, b, c).Text() + rest
  {
  }

  lemma ReadNumeralsSound(s: string)
    requires ReadNumerals(s).Some?
    ensures var (ns, rest) := ReadNumerals(s).value;
            ns.Valid() && s == ns.Text() + rest && (rest != "" ==> !IsDigit(rest[0]))
  {
    var (major, s1) := NumberThenDot(s).value;
    var (minor, s2) := NumberThenDot(s1).value;
    var (patch, rest) := NumberFirst(s2).value;
    NumberThenDotSound(s);
    NumberThenDotSound(s1);
    NumberFirstSound(s2);
    JoinThree(major, minor, patch, rest, s, s1, s2);
  }

  lemma ReadNumeralsComplete(ns: Numerals, rest: string)
    requires ns.Valid() && (rest != "" ==> !IsDigit(rest[0]))
    ensures ReadNumerals(ns.Text() + rest) == Some((ns, rest))
  {
    var s2 := ns.patch + rest;
    var s1 := ns.minor + "." + s2;
    JoinThree(ns.major, ns.minor, ns.patch, rest, ns.major + "." + s1, s1, s2);
    NumberThenDotComplete(ns.major, s1);
    NumberThenDotComplete(ns.minor, s2);
    NumberFirstComplete(ns.patch, rest);
  }

  // ---------- accepted versions ----------

  predicate IsSuffixChar(c: char) {
    'a' <= c <= 'z' || IsDigit(c)
  }

  /** A beta suffix: a hyphen and lower-case letters or digits; the pattern also lets a colon precede the hyphen. */
  predicate IsBetaSuffix(s: string) {
    IsHyphenSuffix(s) || (StartsWith(s, ":") && IsHyphenSuffix(s[1..]))
  }

  predicate IsHyphenSuffix(s: string) {
    |s| >= 2 && s[0] == '-' && forall i :: 1 <= i < |s| ==> IsSuffixChar(s[i])
  }

  /** The version pattern: three numbers, optionally a beta suffix, optionally one final line feed. */
  predicate IsValid(version: string) {
    var read := ReadNumerals(BeforeFinalNewline(version));
    read.Some? && (read.value.1 == "" || IsBetaSuffix(read.value.1))
  }

  /** Whether the version carries a beta suffix. */
  predicate IsBeta(version: string)
    requires IsValid(version)
  {
    ReadNumerals(BeforeFinalNewline(version)).value.1 != ""
  }

  function NumbersOf(version: string): Release
    requires IsValid(version)
  {
    ReadNumeralsSound(BeforeFinalNewline(version));
    ReadNumerals(BeforeFinalNewline(version)).value.0.Numbers()
  }

  /** A version text with what is read off it: whether it is a beta, and its three numbers. */
  datatype ReadVersion = ReadVersion(text: string, beta: bool, numbers: Release)

  /** The text is accepted, and the rest is what it says. */
  ghost predicate FollowsText(v: ReadVersion) {
    forall text | text == v.text :: IsValid(text) && v.beta == IsBeta(text) && v.numbers == NumbersOf(text)
  }

  /** An accepted version: it is determined by its text. */
  type Version = v: ReadVersion | FollowsText(v) witness FirstVersion()

  function FirstVersion(): (v: ReadVersion)
    ensures FollowsText(v)
  {
    var ns := Numerals("0", "0", "0");
    ReleaseTextIsValid(ns);
    ReadVersion(ns.Text(), false, ns.Numbers())
  }

  /** Accepts or rejects a version text. */
  function Accept(text: string): Option<Version> {
    if IsValid(text) then Some(ReadVersion(text, IsBeta(text), NumbersOf(text))) else None
  }

  /** A version is what its text is accepted as. */
  lemma AcceptedText(v: Version)
    ensures Accept(v.text) == Some(v)
  {
    assert FollowsText(v);
    assert IsValid(v.text);
  }

  /** There is only one version of a text. */
  lemma SameTextSameVersion(v: Version, w: Version)
    ensures v.text == w.text <==> v == w
  {
    AcceptedText(v);
    AcceptedText(w);
  }

  lemma ReleaseTextIsRead(ns: Numerals)
    requires ns.Valid()
    ensures BeforeFinalNewline(ns.Text()) == ns.Text() && ReadNumerals(ns.Text()) == Some((ns, ""))
  {
    ReadNumeralsComplete(ns, "");
    assert ns.Text() + "" == ns.Text();
    assert ns.Text()[|ns.Text()| - 1] == ns.patch[|ns.patch| - 1];
  }

  /** Three dotted numbers are a version, and no beta. */
  lemma ReleaseTextIsValid(ns: Numerals)
    requires ns.Valid()
    ensures IsValid(ns.Text()) && !IsBeta(ns.Text()) && NumbersOf(ns.Text()) == ns.Numbers()
  {
    ReleaseTextIsRead(ns);
  }

  lemma TextAvoids(ns: Numerals, c: char)
    requires ns.Valid() && !IsDigit(c) && c != '.'
    ensures c !in ns.Text()
  {
    assert c !in ns.major && c !in ns.minor && c !in ns.patch;
  }

  /** An accepted version is a plain file name. */
  lemma ValidVersionIsName(version: string)
    requires IsValid(version)
    ensures version != "" && version != "." && version != ".." && '/' !in version
  {
    var t := BeforeFinalNewline(version);
    ReadNumeralsSound(t);
    var (ns, rest) := ReadNumerals(t).value;
    assert t[0] == ns.Text()[0] == ns.major[0];
    assert version[0] == t[0];
    TextAvoids(ns, '/');
    assert rest != "" ==> IsBetaSuffix(rest);
    SuffixAvoidsSlash(rest);
    assert version == t || version == t + "\n";
  }

  lemma SuffixAvoidsSlash(rest: string)
    requires rest == "" || IsBetaSuffix(rest)
    ensures '/' !in rest
  {
    if rest != "" {
      var t := if IsHyphenSuffix(rest) then rest else rest[1..];
      forall i | 0 <= i < |t|
        ensures t[i] != '/'
      {
        assert i == 0 || IsSuffixChar(t[i]);
      }
      assert rest == t || rest == ":" + t;
    }
  }

  // ---------- what the pattern accepts, written out ----------

  /** The texts of the pattern: three numerals, a suffix that may be empty, and what the end of the pattern ignores. */
  datatype Spelling = Spelling(major: string, minor: string, patch: string, suffix: string, end: string) {
    ghost predicate Valid() {
      && IsNumeral(major) && IsNumeral(minor) && IsNumeral(patch) && (end == "" || end == "\n")
      && (suffix == "" || exists mark, word :: suffix == mark + word && (mark == "-" || mark == ":-") && IsWord(word))
    }

    function Text(): string {
      major + "." + minor + "." + patch + suffix + end
    }

    /** The first of the three written numbers that differ is smaller. */
    ghost predicate Before(other: Spelling)
      requires Valid() && other.Valid()
    {
      var a, b, c := Value(major), Value(minor), Value(patch);
      var x, y, z := Value(other.major), Value(other.minor), Value(other.patch);
      a < x || (a == x && b < y) || (a == x && b == y && c < z)
    }
  }

  /** One or more lower-case letters or digits. */
  ghost predicate IsWord(s: string) {
    s != "" && forall i :: 0 <= i < |s| ==> 'a' <= s[i] <= 'z' || '0' <= s[i] <= '9'
  }

  lemma BetaIsMarked(suffix: string) returns (mark: string, word: string)
    requires IsBetaSuffix(suffix)
    ensures suffix == mark + word && (mark == "-" || mark == ":-") && IsWord(word)
  {
    mark := if IsHyphenSuffix(suffix) then "-" else ":-";
    word := suffix[|mark|..];
    HyphenThenWord(if IsHyphenSuffix(suffix) then suffix else suffix[1..]);
  }

  lemma HyphenThenWord(s: string)
    requires IsHyphenSuffix(s)
    ensures s == "-" + s[1..] && IsWord(s[1..])
  {
  }

  lemma MarkedIsBeta(mark: string, word: string)
    requires (mark == "-" || mark == ":-") && IsWord(word)
    ensures IsBetaSuffix(mark + word)
  {
    var suffix := mark + word;
    if mark == "-" {
      assert IsHyphenSuffix(suffix);
    } else {
      assert suffix[1..] == "-" + word;
      assert IsHyphenSuffix(suffix[1..]);
    }
  }

  lemma SuffixIsBeta(suffix: string)
    ensures IsBetaSuffix(suffix) <==>
            exists mark, word :: suffix == mark + word && (mark == "-" || mark == ":-") && IsWord(word)
  {
    if IsBetaSuffix(suffix) {
      var mark, word := BetaIsMarked(suffix);
    }
    if mark, word :| suffix == mark + word && (mark == "-" || mark == ":-") && IsWord(word) {
      MarkedIsBeta(mark, word);
    }
  }

  /** Every such text is accepted: it is a beta if it has a suffix, and its numbers are the written ones, in order. */
  lemma SpellingIsAccepted(s: Spelling)
    requires s.Valid()
    ensures IsValid(s.Text()) && (IsBeta(s.Text()) <==> s.suffix != "")
    ensures NumbersOf(s.Text()).major == Value(s.major)
    ensures NumbersOf(s.Text()).minor == Value(s.minor)
    ensures NumbersOf(s.Text()).patch == Value(s.patch)
  {
    var ns, text := Numerals(s.major, s.minor, s.patch), s.Text();
    SuffixIsBeta(s.suffix);
    var rest := s.suffix;
    assert text == ns.Text() + rest + s.end;
    assert rest == "" || IsBetaSuffix(rest);
    assert BeforeFinalNewline(text) == ns.Text() + rest by {
      var last := if rest == "" then ns.patch[|ns.patch| - 1] else rest[|rest| - 1];
      assert (ns.Text() + rest)[|ns.Text() + rest| - 1] == last;
    }
    ReadNumeralsComplete(ns, rest);
  }

  /** Every accepted text is such a text. */
  lemma AcceptedIsSpelled(text: string) returns (s: Spelling)
    requires IsValid(text)
    ensures s.Valid() && s.Text() == text
  {
    var t := BeforeFinalNewline(text);
    ReadNumeralsSound(t);
    var (ns, suffix) := ReadNumerals(t).value;
    SuffixIsBeta(suffix);
    s := Spelling(ns.major, ns.minor, ns.patch, suffix, text[|t|..]);
    assert text == t + text[|t|..];
  }

  /** The accepted texts are exactly those of the pattern. */
  lemma AcceptedIffSpelled(text: string)
    ensures IsValid(text) <==> exists s: Spelling :: s.Valid() && s.Text() == text
  {
    if IsValid(text) {
      var s := AcceptedIsSpelled(text);
    }
    if s: Spelling :| s.Valid() && s.Text() == text {
      SpellingIsAccepted(s);
    }
  }

  /** The text is one of the pattern with a suffix. */
  ghost predicate HasSuffix(text: string) {
    exists s: Spelling :: s.Valid() && s.Text() == text && s.suffix != ""
  }

  /** The first text is that of an older version than the second. */
  ghost predicate Older(text: string, other: string) {
    exists s: Spelling, u: Spelling ::
      s.Valid() && u.Valid() && s.Text() == text && u.Text() == other && s.Before(u)
  }

  /** However the text of a version is taken apart, it gives the same numbers and the same beta flag. */
  lemma SpellingOfVersion(v: Version, s: Spelling)
    requires s.Valid() && s.Text() == v.text
    ensures v.numbers.major == Value(s.major) && v.numbers.minor == Value(s.minor) && v.numbers.patch == Value(s.patch)
    ensures v.beta <==> s.suffix != ""
  {
    AcceptedText(v);
    SpellingIsAccepted(s);
  }

  lemma BetaIffSuffix(v: Version)
    ensures v.beta <==> HasSuffix(v.text)
  {
    var s := VersionIsSpelled(v);
    SpellingOfVersion(v, s);
    if u: Spelling :| u.Valid() && u.Text() == v.text && u.suffix != "" {
      SpellingOfVersion(v, u);
    }
  }

  lemma SpellingsCompare(v: Version, w: Version, s: Spelling, u: Spelling)
    requires s.Valid() && u.Valid() && s.Text() == v.text && u.Text() == w.text
    ensures s.Before(u) <==> !AtMost(w.numbers, v.numbers)
  {
    SpellingOfVersion(v, s);
    SpellingOfVersion(w, u);
  }

  lemma VersionIsSpelled(v: Version) returns (s: Spelling)
    ensures s.Valid() && s.Text() == v.text
  {
    AcceptedText(v);
    s := AcceptedIsSpelled(v.text);
  }

  /** The order of versions is the order of the numbers as they are written. */
  lemma OlderIff(v: Version, w: Version)
    ensures Older(v.text, w.text) <==> !AtMost(w.numbers, v.numbers)
  {
    var s := VersionIsSpelled(v);
    var u := VersionIsSpelled(w);
    SpellingsCompare(v, w, s, u);
    if x: Spelling, y: Spelling :|
         x.Valid() && y.Valid() && x.Text() == v.text && y.Text() == w.text && x.Before(y) {
      SpellingsCompare(v, w, x, y);
    }
  }
}
