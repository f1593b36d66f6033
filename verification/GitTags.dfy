/**
 Git tag templates: printing a released version as a tag, and reading a tag back
 with the pattern derived from the same template.
 */
module GitTags {
  import opened Text
  import opened Decimal
  import opened VersionText

  datatype Kind = Major | Minor | Patch

  /** A number placeholder and the literal text after it. */
  datatype Slot = Slot(kind: Kind, after: string)

  /** A template around the whole version, or around some of its three numbers. */
  datatype Template =
    | WholeVersion(before: string, after: string)
    | Numbered(before: string, slots: seq<Slot>)

  ghost predicate DistinctKinds(slots: seq<Slot>) {
    forall i, j :: 0 <= i < j < |slots| ==> slots[i].kind != slots[j].kind
  }

  /** Every literal between two placeholders contains a non-digit. */
  ghost predicate Separated(slots: seq<Slot>) {
    forall i :: 0 <= i < |slots| - 1 ==> !AllDigits(slots[i].after)
  }

  ghost predicate NoNewlines(slots: seq<Slot>) {
    forall i :: 0 <= i < |slots| ==> '\n' !in slots[i].after
  }

  /** Templates with distinct, separated placeholders; stored templates are percent-encoded, so hold no line feed. */
  ghost predicate WellFormed(t: Template) {
    match t
    case WholeVersion(before, after) => '\n' !in before && '\n' !in after
    case Numbered(before, slots) =>
      slots != [] && DistinctKinds(slots) && Separated(slots) && '\n' !in before && NoNewlines(slots)
  }

  // ---------- placeholder texts ----------

  /** The text of the placeholders filled with the given numerals. */
  function Fill(slots: seq<Slot>, groups: seq<string>): string
    requires |groups| == |slots|
  {
    if slots == [] then "" else groups[0] + slots[0].after + Fill(slots[1..], groups[1..])
  }

  ghost predicate AllNumerals(groups: seq<string>) {
    forall i :: 0 <= i < |groups| ==> IsNumeral(groups[i])
  }

  /** The numerals `groups` fill the placeholders to exactly `s`. */
  ghost predicate Matches(slots: seq<Slot>, s: string, groups: seq<string>) {
    |groups| == |slots| && AllNumerals(groups) && s == Fill(slots, groups)
  }

  // ---------- the backtracking matcher ----------

  /** The first match, trying longer digit runs before shorter ones. */
  function FirstMatch(slots: seq<Slot>, s: string): Option<seq<string>>
    decreases |slots|, |s| + 1
  {
    if slots == [] then (if s == "" then Some([]) else None)
    else MatchWithRun(slots, s, DigitRun(s))
  }

  function MatchWithRun(slots: seq<Slot>, s: string, run: nat): Option<seq<string>>
    requires slots != [] && run <= |s|
    decreases |slots|, run
  {
    if run == 0 then None
    else
      var after := slots[0].after;
      var rest := if StartsWith(s[run..], after) then FirstMatch(slots[1..], s[run..][|after|..]) else None;
      match rest
      case Some(groups) => Some([s[..run]] + groups)
      case None => MatchWithRun(slots, s, run - 1)
  }

  lemma {:induction false} FirstMatchSound(slots: seq<Slot>, s: string)
    ensures FirstMatch(slots, s).Some? ==> Matches(slots, s, FirstMatch(slots, s).value)
    decreases |slots|, |s| + 1
  {
    if slots != [] {
      DigitRunEnds(s);
      MatchWithRunSound(slots, s, DigitRun(s));
    }
  }

  lemma {:induction false} MatchWithRunSound(slots: seq<Slot>, s: string, run: nat)
    requires slots != [] && run <= |s| && AllDigits(s[..run])
    ensures var m := MatchWithRun(slots, s, run); m.Some? ==> Matches(slots, s, m.value)
    decreases |slots|, run
  {
    if run > 0 {
      var after := slots[0].after;
      assert forall i :: 0 <= i < run - 1 ==> s[..run - 1][i] == s[..run][i];
      if StartsWith(s[run..], after) && FirstMatch(slots[1..], s[run..][|after|..]).Some? {
        FirstMatchSound(slots[1..], s[run..][|after|..]);
        var groups := FirstMatch(slots[1..], s[run..][|after|..]).value;
        assert ([s[..run]] + groups)[1..] == groups;
        assert s == s[..run] + after + s[run..][|after|..];
      } else {
        MatchWithRunSound(slots, s, run - 1);
      }
    }
  }

  lemma {:induction false} FirstMatchComplete(slots: seq<Slot>, s: string, groups: seq<string>)
    requires Matches(slots, s, groups)
    ensures FirstMatch(slots, s).Some?
    decreases |slots|, |s| + 1
  {
    if slots != [] {
      var g, after := groups[0], slots[0].after;
      assert s == g + after + Fill(slots[1..], groups[1..]);
      assert forall i :: 0 <= i < |g| ==> s[i] == g[i];
      var run := DigitRun(s);
      DigitRunEnds(s);
      assert |g| <= run;
      MatchWithRunComplete(slots, s, groups, run);
    }
  }

  lemma {:induction false} MatchWithRunComplete(slots: seq<Slot>, s: string, groups: seq<string>, run: nat)
    requires slots != [] && Matches(slots, s, groups) && |groups[0]| <= run <= |s|
    ensures MatchWithRun(slots, s, run).Some?
    decreases |slots|, run
  {
    if run == |groups[0]| {
      var after := slots[0].after;
      var rest := Fill(slots[1..], groups[1..]);
      assert s == groups[0] + after + rest;
      assert s[run..] == after + rest && s[run..][|after|..] == rest;
      FirstMatchComplete(slots[1..], rest, groups[1..]);
    } else {
      MatchWithRunComplete(slots, s, groups, run - 1);
    }
  }

  // ---------- at most one match ----------

  lemma {:induction false} MatchIsUnique(slots: seq<Slot>, s: string, g1: seq<string>, g2: seq<string>)
    requires Separated(slots) && Matches(slots, s, g1) && Matches(slots, s, g2)
    ensures g1 == g2
    decreases |slots|
  {
    if slots != [] {
      var after := slots[0].after;
      var r1, r2 := Fill(slots[1..], g1[1..]), Fill(slots[1..], g2[1..]);
      assert s == g1[0] + after + r1 && s == g2[0] + after + r2;
      if |slots| == 1 {
        assert r1 == "" && r2 == "";
      } else {
        DigitRunBefore(g1[0], after, r1);
        DigitRunBefore(g2[0], after, r2);
      }
      assert g1[0] == s[..|g1[0]|] && g2[0] == s[..|g2[0]|];
      assert r1 == s[|g1[0]| + |after|..] && r2 == s[|g2[0]| + |after|..];
      assert forall i :: 0 <= i < |slots| - 2 ==> slots[1..][i] == slots[i + 1];
      MatchIsUnique(slots[1..], r1, g1[1..], g2[1..]);
      assert g1 == [g1[0]] + g1[1..] && g2 == [g2[0]] + g2[1..];
    }
  }

  lemma DigitRunBefore(digits: string, literal: string, rest: string)
    requires AllDigits(digits) && !AllDigits(literal)
    ensures DigitRun(digits + literal + rest) == |digits| + DigitRun(literal)
  {
    var k := DigitRun(literal);
    DigitRunEnds(literal);
    var s := digits + literal + rest;
    assert literal[..|literal|] == literal;
    assert s[..|digits| + k] == digits + literal[..k];
    assert s[|digits| + k] == literal[k];
    DigitRunIs(s, |digits| + k);
  }

  function Ones(n: nat): (groups: seq<string>)
    ensures |groups| == n && AllNumerals(groups)
  {
    seq(n, _ => "1")
  }

  /** Two placeholders separated by digits only admit two readings of one text. */
  lemma {:induction false} UnseparatedIsAmbiguous(slots: seq<Slot>, i: nat)
    returns (s: string, g1: seq<string>, g2: seq<string>)
    requires i + 1 < |slots| && AllDigits(slots[i].after)
    ensures Matches(slots, s, g1) && Matches(slots, s, g2) && g1 != g2
    decreases i
  {
    if i == 0 {
      var w := slots[0].after;
      var wide := "1" + w + "1";
      var rest := Ones(|slots| - 2);
      g1 := ["1", wide] + rest;
      g2 := [wide, "1"] + rest;
      s := "1" + w + wide + slots[1].after + Fill(slots[2..], rest);
      assert IsNumeral(wide);
      FillTwo(slots, "1", wide, rest);
      FillTwo(slots, wide, "1", rest);
      assert wide + w + "1" == "1" + w + wide;
      assert g1[0] != g2[0];
    } else {
      var s', g1', g2' := UnseparatedIsAmbiguous(slots[1..], i - 1);
      s := "1" + slots[0].after + s';
      g1, g2 := ["1"] + g1', ["1"] + g2';
      assert g1[1..] == g1' && g2[1..] == g2';
    }
  }

  lemma FillTwo(slots: seq<Slot>, a: string, b: string, rest: seq<string>)
    requires |slots| == |rest| + 2
    ensures Fill(slots, [a, b] + rest) == a + slots[0].after + b + slots[1].after + Fill(slots[2..], rest)
  {
    var groups := [a, b] + rest;
    assert groups[1..] == [b] + rest && groups[1..][1..] == rest;
    assert slots[1..][1..] == slots[2..];
    assert Fill(slots[1..], groups[1..]) == b + slots[1].after + Fill(slots[2..], rest);
  }

  /** A template reads every text in at most one way exactly when its literals separate the numbers. */
  lemma UnambiguousIffSeparated(slots: seq<Slot>)
    ensures Separated(slots) <==>
            forall s, g1, g2 :: Matches(slots, s, g1) && Matches(slots, s, g2) ==> g1 == g2
  {
    if Separated(slots) {
      forall s, g1, g2 | Matches(slots, s, g1) && Matches(slots, s, g2)
        ensures g1 == g2
      {
        MatchIsUnique(slots, s, g1, g2);
      }
    } else {
      var i :| 0 <= i < |slots| - 1 && AllDigits(slots[i].after);
      var s, g1, g2 := UnseparatedIsAmbiguous(slots, i);
    }
  }

  // ---------- reading a tag ----------

  /** The whole-version pattern; its second dot stands for any character but a line feed. */
  predicate IsVersionPattern(x: string) {
    exists i, j | 0 < i < |x| && i + 1 < j < |x| - 1 :: PatternAt(x, i, j)
  }

  /** The two separators of the pattern stand at `i` and `j`. */
  predicate PatternAt(x: string, i: int, j: int)
    requires 0 < i < |x| && i + 1 < j < |x| - 1
  {
    && x[i] == '.' && x[j] != '\n'
    && AllDigits(x[..i]) && AllDigits(x[i + 1..j]) && AllDigits(x[j + 1..])
  }

  /** Three numbers, a dot after the first and any character but a line feed after the second. */
  ghost predicate IsNumbersText(x: string, a: string, b: string, any: string, c: string) {
    && IsNumeral(a) && IsNumeral(b) && IsNumeral(c) && |any| == 1 && any != "\n"
    && x == a + "." + b + any + c
  }

  lemma PatternIsNumbers(x: string, i: nat, j: nat)
    requires 0 < i < |x| && i + 1 < j < |x| - 1 && PatternAt(x, i, j)
    ensures IsNumbersText(x, x[..i], x[i + 1..j], x[j..j + 1], x[j + 1..])
  {
    assert x[j..j + 1][0] == x[j];
  }

  lemma NumbersArePattern(x: string, a: string, b: string, any: string, c: string)
    requires IsNumbersText(x, a, b, any, c)
    ensures IsVersionPattern(x)
  {
    var i, j := |a|, |a| + 1 + |b|;
    assert x[..i] == a && x[i + 1..j] == b && x[j + 1..] == c;
    assert [x[j]] == any;
    assert PatternAt(x, i, j);
  }

  /** The texts the whole-version pattern matches. */
  lemma VersionPatternIff(x: string)
    ensures IsVersionPattern(x) <==> exists a, b, any, c :: IsNumbersText(x, a, b, any, c)
  {
    if i, j :| 0 < i < |x| && i + 1 < j < |x| - 1 && PatternAt(x, i, j) {
      PatternIsNumbers(x, i, j);
    }
    if a, b, any, c :| IsNumbersText(x, a, b, any, c) {
      NumbersArePattern(x, a, b, any, c);
    }
  }

  /** The numeral read for a kind of number, "0" if the template lacks it. */
  function GroupOf(slots: seq<Slot>, groups: seq<string>, kind: Kind): string
    requires |groups| == |slots|
  {
    if slots == [] then "0"
    else if slots[0].kind == kind then groups[0]
    else GroupOf(slots[1..], groups[1..], kind)
  }

  function ReadGroups(slots: seq<Slot>, groups: seq<string>): Numerals
    requires |groups| == |slots|
  {
    Numerals(GroupOf(slots, groups, Major), GroupOf(slots, groups, Minor), GroupOf(slots, groups, Patch))
  }

  /** The version of a text that the template's pattern matches in full. */
  function ReadExactly(t: Template, s: string): Option<string> {
    match t
    case WholeVersion(before, after) =>
      if |before| + |after| <= |s| && StartsWith(s, before) && s[|s| - |after|..] == after
         && IsVersionPattern(s[|before|..|s| - |after|])
      then Some(s[|before|..|s| - |after|]) else None
    case Numbered(before, slots) =>
      if StartsWith(s, before) then
        FirstMatchSound(slots, s[|before|..]);
        match FirstMatch(slots, s[|before|..])
        case Some(groups) => Some(ReadGroups(slots, groups).Text())
        case None => None
      else None
  }

  /** The version a tag stands for; the pattern's end also matches before one final line feed. */
  function ReadTag(t: Template, tag: Option<string>): Option<string> {
    if tag.None? || tag.value == "" then None
    else
      var whole := ReadExactly(t, tag.value);
      if whole.Some? then whole else ReadExactly(t, BeforeFinalNewline(tag.value))
  }

  // ---------- printing a version ----------

  predicate Canonical(ns: Numerals) {
    IsCanonical(ns.major) && IsCanonical(ns.minor) && IsCanonical(ns.patch)
  }

  function NumeralOf(ns: Numerals, kind: Kind): string {
    match kind
    case Major => ns.major
    case Minor => ns.minor
    case Patch => ns.patch
  }

  /** The numbers of the version, each printed anew. */
  function PrintedGroups(slots: seq<Slot>, ns: Numerals): (groups: seq<string>)
    requires ns.Valid()
    ensures |groups| == |slots| && AllNumerals(groups)
  {
    seq(|slots|, i requires 0 <= i < |slots| => Show(Value(NumeralOf(ns, slots[i].kind))))
  }

  /** The tag of a released version; semantic versioning rejects superfluous leading zeros. */
  function PrintTag(t: Template, ns: Numerals): Option<string>
    requires ns.Valid()
  {
    if !Canonical(ns) then None
    else
      match t
      case WholeVersion(before, after) => Some(before + ns.Text() + after)
      case Numbered(before, slots) => Some(before + Fill(slots, PrintedGroups(slots, ns)))
  }

  /** Whether an accepted version can be printed at all: its numbers have no superfluous leading zeros. */
  predicate IsPrintable(version: string)
    requires IsValid(version)
  {
    ReadNumeralsSound(BeforeFinalNewline(version));
    Canonical(ReadNumerals(BeforeFinalNewline(version)).value.0)
  }

  /** The template of the git reference of a tag. */
  function RefTemplate(t: Template): Template {
    match t
    case WholeVersion(before, after) => WholeVersion("refs/tags/" + before, after)
    case Numbered(before, slots) => Numbered("refs/tags/" + before, slots)
  }

  // ---------- reading a printed tag ----------

  lemma {:induction false} GroupOfAt(slots: seq<Slot>, groups: seq<string>, i: nat)
    requires |groups| == |slots| && i < |slots| && DistinctKinds(slots)
    ensures GroupOf(slots, groups, slots[i].kind) == groups[i]
    decreases |slots|
  {
    if i > 0 {
      assert forall k :: 0 <= k < |slots| - 1 ==> slots[1..][k] == slots[k + 1];
      GroupOfAt(slots[1..], groups[1..], i - 1);
      assert slots[0].kind != slots[i].kind;
    }
  }

  ghost predicate Uses(slots: seq<Slot>, kind: Kind) {
    exists i :: 0 <= i < |slots| && slots[i].kind == kind
  }

  lemma {:induction false} GroupOfUnused(slots: seq<Slot>, groups: seq<string>, kind: Kind)
    requires |groups| == |slots| && !Uses(slots, kind)
    ensures GroupOf(slots, groups, kind) == "0"
    decreases |slots|
  {
    if slots != [] {
      assert slots[0].kind != kind;
      assert !Uses(slots[1..], kind) by {
        assert forall k :: 0 <= k < |slots| - 1 ==> slots[1..][k] == slots[k + 1];
      }
      GroupOfUnused(slots[1..], groups[1..], kind);
    }
  }

  /** The version with the numbers the template lacks set to zero. */
  ghost function Kept(t: Template, ns: Numerals): Numerals {
    match t
    case WholeVersion(_, _) => ns
    case Numbered(_, slots) =>
      Numerals(if Uses(slots, Major) then ns.major else "0",
               if Uses(slots, Minor) then ns.minor else "0",
               if Uses(slots, Patch) then ns.patch else "0")
  }

  lemma ReadPrintedGroup(slots: seq<Slot>, ns: Numerals, kind: Kind)
    requires ns.Valid() && Canonical(ns) && DistinctKinds(slots)
    ensures GroupOf(slots, PrintedGroups(slots, ns), kind) == if Uses(slots, kind) then NumeralOf(ns, kind) else "0"
  {
    var groups := PrintedGroups(slots, ns);
    if Uses(slots, kind) {
      var i :| 0 <= i < |slots| && slots[i].kind == kind;
      GroupOfAt(slots, groups, i);
      ShowOfValue(NumeralOf(ns, kind));
    } else {
      GroupOfUnused(slots, groups, kind);
    }
  }

  lemma VersionTextIsPattern(ns: Numerals)
    requires ns.Valid()
    ensures IsVersionPattern(ns.Text())
  {
    var x := ns.Text();
    var i, j := |ns.major|, |ns.major| + 1 + |ns.minor|;
    assert x[..i] == ns.major && x[i + 1..j] == ns.minor && x[j + 1..] == ns.patch;
    assert PatternAt(x, i, j);
  }

  lemma ReadPrintedWhole(before: string, after: string, ns: Numerals)
    requires ns.Valid()
    ensures ReadExactly(WholeVersion(before, after), before + ns.Text() + after) == Some(ns.Text())
  {
    var tag := before + ns.Text() + after;
    VersionTextIsPattern(ns);
    assert tag[|before|..|tag| - |after|] == ns.Text();
    assert tag[|tag| - |after|..] == after;
  }

  lemma ReadPrintedNumbers(before: string, slots: seq<Slot>, ns: Numerals)
    requires ns.Valid() && Canonical(ns) && DistinctKinds(slots) && Separated(slots)
    ensures ReadExactly(Numbered(before, slots), before + Fill(slots, PrintedGroups(slots, ns)))
            == Some(Kept(Numbered(before, slots), ns).Text())
  {
    var groups := PrintedGroups(slots, ns);
    var s := Fill(slots, groups);
    assert (before + s)[|before|..] == s;
    FirstMatchComplete(slots, s, groups);
    FirstMatchSound(slots, s);
    MatchIsUnique(slots, s, groups, FirstMatch(slots, s).value);
    ReadPrintedGroup(slots, ns, Major);
    ReadPrintedGroup(slots, ns, Minor);
    ReadPrintedGroup(slots, ns, Patch);
  }

  /** Reading the printed tag of a released version returns it, absent numbers as zero. */
  lemma ReadPrintedTag(t: Template, ns: Numerals)
    requires WellFormed(t) && ns.Valid() && Canonical(ns)
    ensures ReadTag(t, PrintTag(t, ns)) == Some(Kept(t, ns).Text())
  {
    match t
    case WholeVersion(before, after) =>
      ReadPrintedWhole(before, after, ns);
    case Numbered(before, slots) =>
      ReadPrintedNumbers(before, slots, ns);
      FillHasNoFinalNewline(slots, PrintedGroups(slots, ns));
  }

  // ---------- printing a read version ----------

  lemma {:induction false} GroupOfIsNumeral(slots: seq<Slot>, groups: seq<string>, kind: Kind)
    requires |groups| == |slots| && AllNumerals(groups)
    ensures IsNumeral(GroupOf(slots, groups, kind))
    decreases |slots|
  {
    if slots != [] {
      GroupOfIsNumeral(slots[1..], groups[1..], kind);
    }
  }

  lemma ReprintGroups(slots: seq<Slot>, groups: seq<string>)
    requires |groups| == |slots| && AllNumerals(groups) && DistinctKinds(slots)
    requires ReadGroups(slots, groups).Valid() && Canonical(ReadGroups(slots, groups))
    ensures PrintedGroups(slots, ReadGroups(slots, groups)) == groups
  {
    var ns := ReadGroups(slots, groups);
    forall i | 0 <= i < |slots|
      ensures PrintedGroups(slots, ns)[i] == groups[i]
    {
      GroupOfAt(slots, groups, i);
      assert NumeralOf(ns, slots[i].kind) == groups[i];
      ShowOfValue(groups[i]);
    }
  }

  /** Of the texts the whole-version pattern matches, the accepted ones are three dotted numbers. */
  lemma AcceptedPatternIsRelease(x: string) returns (ns: Numerals)
    requires IsVersionPattern(x) && IsValid(x)
    ensures ns.Valid() && x == ns.Text()
  {
    var i, j := TwoNonDigits(x);
    ns := NumeralsAtFront(x);
    assert x[..|x|] == x;
  }

  /** A text the whole-version pattern matches has two characters that may not be digits, and no final line feed. */
  lemma TwoNonDigits(x: string) returns (i: nat, j: nat)
    requires IsVersionPattern(x)
    ensures forall k :: 0 <= k < |x| && k != i && k != j ==> IsDigit(x[k])
    ensures BeforeFinalNewline(x) == x
  {
    i, j :| 0 < i < |x| && i + 1 < j < |x| - 1 && PatternAt(x, i, j);
    NoFinalNewlineAfterDigits(x, j);
    OnlyTwoNonDigits(x, i, j);
  }

  lemma NoFinalNewlineAfterDigits(x: string, j: nat)
    requires j < |x| - 1 && AllDigits(x[j + 1..])
    ensures BeforeFinalNewline(x) == x
  {
    assert x[|x| - 1] == x[j + 1..][|x| - j - 2];
  }

  /** A valid version without final line feed starts with three numbers; what follows starts with a non-digit. */
  lemma NumeralsAtFront(x: string) returns (ns: Numerals)
    requires IsValid(x) && BeforeFinalNewline(x) == x
    ensures ns.Valid() && |ns.Text()| <= |x| && x[..|ns.Text()|] == ns.Text()
    ensures |ns.major| + 1 + |ns.minor| < |ns.Text()|
    ensures x[|ns.major|] == '.' && x[|ns.major| + 1 + |ns.minor|] == '.'
    ensures |ns.Text()| < |x| ==> !IsDigit(x[|ns.Text()|])
  {
    ReadNumeralsSound(x);
    ns := ReadNumerals(x).value.0;
    assert ns.Text()[|ns.major|] == '.' && ns.Text()[|ns.major| + 1 + |ns.minor|] == '.';
  }

  lemma OnlyTwoNonDigits(x: string, i: nat, j: nat)
    requires 0 < i < |x| && i + 1 < j < |x| - 1 && PatternAt(x, i, j)
    ensures forall k :: 0 <= k < |x| && k != i && k != j ==> IsDigit(x[k])
  {
    forall k | 0 <= k < |x| && k != i && k != j
      ensures IsDigit(x[k])
    {
      if k < i {
        assert IsDigit(x[..i][k]);
      } else if k < j {
        assert IsDigit(x[i + 1..j][k - i - 1]);
      } else {
        assert IsDigit(x[j + 1..][k - j - 1]);
      }
    }
  }

  /** A text the template reads does not end in a line feed. */
  lemma ReadTextHasNoFinalNewline(t: Template, s: string)
    requires WellFormed(t) && ReadExactly(t, s).Some?
    ensures s != "" && !EndsWith(s, '\n')
  {
    match t
    case WholeVersion(before, after) =>
      var x := s[|before|..|s| - |after|];
      var i, j :| 0 < i < |x| && i + 1 < j < |x| - 1 && PatternAt(x, i, j);
      OnlyTwoNonDigits(x, i, j);
      assert IsDigit(x[|x| - 1]);
      if after == "" {
        assert s[|s| - 1] == x[|x| - 1];
      } else {
        assert s[|s| - 1] == after[|after| - 1];
      }
    case Numbered(before, slots) =>
      FirstMatchSound(slots, s[|before|..]);
      var groups := FirstMatch(slots, s[|before|..]).value;
      FillHasNoFinalNewline(slots, groups);
      assert s[|s| - 1] == s[|before|..][|s| - |before| - 1];
  }

  lemma {:induction false} FillHasNoFinalNewline(slots: seq<Slot>, groups: seq<string>)
    requires slots != [] && |groups| == |slots| && AllNumerals(groups) && NoNewlines(slots)
    ensures Fill(slots, groups) != "" && !EndsWith(Fill(slots, groups), '\n')
    decreases |slots|
  {
    var s := Fill(slots, groups);
    if |slots| == 1 {
      assert Fill(slots[1..], groups[1..]) == "";
      assert s == groups[0] + slots[0].after;
      if slots[0].after == "" {
        assert s[|s| - 1] == groups[0][|groups[0]| - 1];
      } else {
        assert s[|s| - 1] == slots[0].after[|slots[0].after| - 1];
      }
    } else {
      assert forall k :: 0 <= k < |slots| - 1 ==> slots[1..][k] == slots[k + 1];
      FillHasNoFinalNewline(slots[1..], groups[1..]);
      var rest := Fill(slots[1..], groups[1..]);
      assert s[|s| - 1] == rest[|rest| - 1];
    }
  }

  lemma ReprintWhole(before: string, after: string, s: string) returns (ns: Numerals)
    requires ReadExactly(WholeVersion(before, after), s).Some?
    requires IsValid(ReadExactly(WholeVersion(before, after), s).value)
    ensures ns.Valid() && ReadExactly(WholeVersion(before, after), s) == Some(ns.Text())
    ensures s == before + ns.Text() + after
  {
    ReadWholeParts(before, after, s);
    ns := AcceptedPatternIsRelease(ReadExactly(WholeVersion(before, after), s).value);
  }

  lemma ReadWholeParts(before: string, after: string, s: string)
    requires ReadExactly(WholeVersion(before, after), s).Some?
    ensures var x := ReadExactly(WholeVersion(before, after), s).value;
            IsVersionPattern(x) && s == before + x + after
  {
    assert s == s[..|before|] + s[|before|..|s| - |after|] + s[|s| - |after|..];
  }

  lemma ReprintNumbers(before: string, slots: seq<Slot>, s: string) returns (ns: Numerals)
    requires DistinctKinds(slots) && ReadExactly(Numbered(before, slots), s).Some?
    ensures ns.Valid() && ReadExactly(Numbered(before, slots), s) == Some(ns.Text())
    ensures Canonical(ns) ==> s == before + Fill(slots, PrintedGroups(slots, ns))
  {
    FirstMatchSound(slots, s[|before|..]);
    var groups := FirstMatch(slots, s[|before|..]).value;
    ns := ReadGroups(slots, groups);
    GroupOfIsNumeral(slots, groups, Major);
    GroupOfIsNumeral(slots, groups, Minor);
    GroupOfIsNumeral(slots, groups, Patch);
    if Canonical(ns) {
      ReprintGroups(slots, groups);
    }
    assert s == before + s[|before|..];
  }

  /** A version was read, and it is accepted. */
  predicate IsAccepted(read: Option<string>) {
    read.Some? && IsValid(read.value)
  }

  lemma ReprintReadText(t: Template, s: string) returns (ns: Numerals)
    requires WellFormed(t)
    ensures IsAccepted(ReadExactly(t, s)) ==>
      && ns.Valid() && ReadExactly(t, s) == Some(ns.Text())
      && PrintTag(t, ns) == if Canonical(ns) then Some(s) else None
  {
    ns := Numerals("0", "0", "0");
    if IsAccepted(ReadExactly(t, s)) {
      match t
      case WholeVersion(before, after) =>
        ns := ReprintWhole(before, after, s);
      case Numbered(before, slots) =>
        ns := ReprintNumbers(before, slots, s);
    }
  }

  /**
   The version read from a tag, if accepted and free of superfluous leading
   zeros, prints as the tag without a final line feed; it prints as the tag
   itself exactly when the tag does not end in a line feed.
   */
  lemma ReprintReadTag(t: Template, tag: string) returns (ns: Numerals)
    requires WellFormed(t)
    ensures IsAccepted(ReadTag(t, Some(tag))) ==>
      && ns.Valid() && ReadTag(t, Some(tag)) == Some(ns.Text())
      && PrintTag(t, ns) == (if Canonical(ns) then Some(BeforeFinalNewline(tag)) else None)
      && (Canonical(ns) ==> (PrintTag(t, ns) == Some(tag) <==> !EndsWith(tag, '\n')))
  {
    if ReadExactly(t, tag).Some? {
      ReadTextHasNoFinalNewline(t, tag);
      ns := ReprintReadText(t, tag);
    } else {
      ns := ReprintReadText(t, BeforeFinalNewline(tag));
    }
  }

  lemma PrintedRef(t: Template, ns: Numerals)
    requires ns.Valid() && Canonical(ns)
    ensures PrintTag(RefTemplate(t), ns) == Some("refs/tags/" + PrintTag(t, ns).value)
  {
    match t
    case WholeVersion(before, after) =>
      assert "refs/tags/" + before + ns.Text() + after == "refs/tags/" + (before + ns.Text() + after);
    case Numbered(before, slots) =>
      var s := Fill(slots, PrintedGroups(slots, ns));
      assert "refs/tags/" + before + s == "refs/tags/" + (before + s);
  }

  lemma ReadWholeRef(before: string, after: string, refs: string, tag: string)
    ensures ReadExactly(WholeVersion(refs + before, after), refs + tag) == ReadExactly(WholeVersion(before, after), tag)
  {
    var s := refs + tag;
    assert StartsWith(s, refs + before) <==> StartsWith(tag, before) by {
      assert s[|refs|..] == tag && (refs + before)[|refs|..] == before;
    }
    if |before| + |after| <= |tag| {
      assert s[|s| - |after|..] == tag[|tag| - |after|..];
      assert s[|refs + before|..|s| - |after|] == tag[|before|..|tag| - |after|];
    }
  }

  lemma ReadNumberedRef(before: string, slots: seq<Slot>, refs: string, tag: string)
    ensures ReadExactly(Numbered(refs + before, slots), refs + tag) == ReadExactly(Numbered(before, slots), tag)
  {
    var s := refs + tag;
    assert StartsWith(s, refs + before) <==> StartsWith(tag, before) by {
      assert s[|refs|..] == tag && (refs + before)[|refs|..] == before;
    }
    if StartsWith(tag, before) {
      assert s[|refs + before|..] == tag[|before|..];
    }
  }

  lemma ReadExactlyRef(t: Template, s: string)
    ensures ReadExactly(RefTemplate(t), s)
            == if StartsWith(s, "refs/tags/") then ReadExactly(t, s[|"refs/tags/"|..]) else None
  {
    var refs := "refs/tags/";
    if StartsWith(s, refs) {
      assert s == refs + s[|refs|..];
      match t
      case WholeVersion(before, after) => ReadWholeRef(before, after, refs, s[|refs|..]);
      case Numbered(before, slots) => ReadNumberedRef(before, slots, refs, s[|refs|..]);
    }
  }

  lemma NothingReadsAsVersion(t: Template)
    requires WellFormed(t)
    ensures ReadExactly(t, "").None?
  {
    if ReadExactly(t, "").Some? {
      ReadTextHasNoFinalNewline(t, "");
    }
  }

  lemma NewlineAfterRefs(refs: string, tag: string, ref: string)
    requires tag != "" && ref == refs + tag
    ensures StartsWith(BeforeFinalNewline(ref), refs) && BeforeFinalNewline(ref)[|refs|..] == BeforeFinalNewline(tag)
  {
  }

  /** A git reference stands for the version of its tag; anything else than the reference of a tag for none. */
  lemma RefStandsForTag(t: Template, ref: string)
    requires WellFormed(t)
    ensures ReadTag(RefTemplate(t), Some(ref))
            == if StartsWith(ref, "refs/tags/") then ReadTag(t, Some(ref[|"refs/tags/"|..])) else None
  {
    var refs := "refs/tags/";
    ReadExactlyRef(t, ref);
    ReadExactlyRef(t, BeforeFinalNewline(ref));
    NothingReadsAsVersion(t);
    if StartsWith(ref, refs) && ref != refs {
      NewlineAfterRefs(refs, ref[|refs|..], ref);
    }
  }

  /** A reference is read exactly if it is that of a tag which is read. */
  lemma RefReadIffTagRead(t: Template, ref: string)
    requires WellFormed(t)
    ensures ReadTag(RefTemplate(t), Some(ref)).Some? <==>
            exists tag :: ref == "refs/tags/" + tag && ReadTag(t, Some(tag)).Some?
  {
    var refs := "refs/tags/";
    RefStandsForTag(t, ref);
    if StartsWith(ref, refs) {
      var tag := ref[|refs|..];
      assert ref == refs + tag;
      assert forall other :: ref == refs + other ==> other == tag;
    } else {
      assert forall other :: ref != refs + other;
    }
  }

  lemma RefTemplateWellFormed(t: Template)
    requires WellFormed(t)
    ensures WellFormed(RefTemplate(t))
  {
    assert '\n' !in "refs/tags/";
  }

  /** A released version has a tag exactly when it is printable. */
  lemma PrintableIffTagged(t: Template, ns: Numerals)
    requires ns.Valid() && IsValid(ns.Text())
    ensures IsPrintable(ns.Text()) <==> PrintTag(t, ns).Some?
  {
    ReleaseTextIsRead(ns);
  }

  /**
   The tag cloned for a pushed reference is the tag of that reference, up to a
   final line feed, whenever its version is accepted and can be printed.
   */
  lemma ClonedTagIsPushedTag(t: Template, ref: string) returns (ns: Numerals)
    requires WellFormed(t)
    ensures IsAccepted(ReadTag(RefTemplate(t), Some(ref))) ==>
      && ns.Valid() && ReadTag(RefTemplate(t), Some(ref)) == Some(ns.Text())
      && (Canonical(ns) ==> PrintTag(t, ns).Some? && BeforeFinalNewline(ref) == "refs/tags/" + PrintTag(t, ns).value)
  {
    ns := Numerals("0", "0", "0");
    if IsAccepted(ReadTag(RefTemplate(t), Some(ref))) {
      RefTemplateWellFormed(t);
      ns := ReprintReadTag(RefTemplate(t), ref);
      if Canonical(ns) {
        PrintedRef(t, ns);
      }
    }
  }

  // ---------- tags that do not come back ----------

  /** The unescaped dot lets a tag match whose version is then rejected. */
  lemma UnescapedDotMatches()
    ensures ReadTag(WholeVersion("", ""), Some("1.2x3")) == Some("1.2x3") && !IsValid("1.2x3")
  {
    var x := "1.2x3";
    assert x[..1] == "1" && x[1 + 1..3] == "2" && x[3 + 1..] == "3";
    assert PatternAt(x, 1, 3);
    assert x[0..5] == x;
    var s1 := x[2..];
    assert s1 == "2x3";
    DigitRunIs(x, 1);
    DigitRunIs(s1, 1);
    assert s1[1] == 'x';
  }

  /** A text the whole-version pattern matches is accepted exactly when its second separator is a dot. */
  lemma AcceptedIffSecondDot(x: string, i: nat, j: nat)
    requires 0 < i < |x| && i + 1 < j < |x| - 1 && PatternAt(x, i, j)
    ensures IsValid(x) <==> x[j] == '.'
  {
    if x[j] == '.' {
      var ns := Numerals(x[..i], x[i + 1..j], x[j + 1..]);
      assert x == ns.Text();
      ReleaseTextIsValid(ns);
    }
    if IsValid(x) {
      NoFinalNewlineAfterDigits(x, j);
      OnlyTwoNonDigits(x, i, j);
      var ns := NumeralsAtFront(x);
    }
  }

  /** Of the texts the whole-version pattern matches, exactly three dotted numbers are accepted. */
  lemma AcceptedIffRelease(x: string)
    requires IsVersionPattern(x)
    ensures IsValid(x) <==> exists ns: Numerals :: ns.Valid() && x == ns.Text()
  {
    if IsValid(x) {
      var ns := AcceptedPatternIsRelease(x);
    }
    if ns: Numerals :| ns.Valid() && x == ns.Text() {
      ReleaseTextIsValid(ns);
    }
  }

  /**
   What a template of numbers reads is always accepted; what a template of the
   whole version reads is accepted exactly if it is three dotted numbers.
   */
  lemma ReadVersionAcceptedIff(t: Template, tag: string)
    requires WellFormed(t) && ReadTag(t, Some(tag)).Some?
    ensures t.Numbered? ==> IsAccepted(ReadTag(t, Some(tag)))
    ensures t.WholeVersion? ==>
      (IsAccepted(ReadTag(t, Some(tag))) <==>
       exists ns: Numerals :: ns.Valid() && ReadTag(t, Some(tag)) == Some(ns.Text()))
  {
    var s := if ReadExactly(t, tag).Some? then tag else BeforeFinalNewline(tag);
    match t
    case WholeVersion(before, after) =>
      ReadWholeParts(before, after, s);
      AcceptedIffRelease(ReadTag(t, Some(tag)).value);
    case Numbered(before, slots) =>
      var ns := ReprintNumbers(before, slots, s);
      ReleaseTextIsValid(ns);
  }

  /** A tag with a superfluous leading zero is read and accepted, but its version cannot be printed. */
  lemma LeadingZeroIsNotPrinted()
    ensures var t, ns := WholeVersion("v", ""), Numerals("1", "02", "3");
            && ReadTag(t, Some("v1.02.3")) == Some("1.02.3") && IsValid("1.02.3") && ns.Text() == "1.02.3"
            && ns.Valid() && PrintTag(t, ns) == None
  {
    var ns := Numerals("1", "02", "3");
    assert ns.Text() == "1.02.3" && "v" + ns.Text() + "" == "v1.02.3";
    ReadPrintedWhole("v", "", ns);
    ReleaseTextIsValid(ns);
  }

  /** A tag that ends in a line feed is read as if it did not, and printed without it. */
  lemma FinalNewlineIsDropped()
    ensures var t, ns := WholeVersion("v", ""), Numerals("1", "2", "3");
            && ReadTag(t, Some("v1.2.3\n")) == Some("1.2.3") && ns.Text() == "1.2.3"
            && ns.Valid() && PrintTag(t, ns) == Some("v1.2.3")
  {
    var t, ns := WholeVersion("v", ""), Numerals("1", "2", "3");
    var tag := "v1.2.3\n";
    assert ns.Text() == "1.2.3" && "v" + ns.Text() + "" == "v1.2.3" == BeforeFinalNewline(tag);
    ReadPrintedWhole("v", "", ns);
    if ReadExactly(t, tag).Some? {
      ReadTextHasNoFinalNewline(t, tag);
      assert false;
    }
  }
}
