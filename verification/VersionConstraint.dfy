/**
 Terraform version constraints: a comma-separated list of comparisons, evaluated
 part by part against a target version.
 */
module VersionConstraint {
  import opened Text
  import opened Decimal
  import SemVer

  datatype Compatibility = NoConstraint | Compatible | ImplicitCompatible | Incompatible | Error

  datatype Operator = AtLeast | Above | AtMost | Below | Pessimistic | Equal | NotEqual | Bare

  /** A version as written in a constraint; minor and patch may be missing. */
  datatype Written =
    | MajorOnly(major: nat)
    | MajorMinor(major: nat, minor: nat)
    | Full(major: nat, minor: nat, patch: nat)

  datatype Part = Part(op: Operator, version: Written)

  // ---------- meaning ----------

  /** The written version with missing numbers taken as zero. */
  function Completed(w: Written): SemVer.Version {
    match w
    case MajorOnly(a) => SemVer.Version(a, 0, 0, [])
    case MajorMinor(a, b) => SemVer.Version(a, b, 0, [])
    case Full(a, b, c) => SemVer.Version(a, b, c, [])
  }

  /** Every written number but the last agrees. */
  predicate AgreesButLast(w: Written, v: SemVer.Version) {
    match w
    case MajorOnly(_) => true
    case MajorMinor(a, _) => v.major == a
    case Full(a, b, _) => v.major == a && v.minor == b
  }

  predicate Holds(p: Part, v: SemVer.Version) {
    var c := Completed(p.version);
    match p.op
    case AtLeast => SemVer.AtMost(c, v)
    case Above => SemVer.Less(c, v)
    case AtMost => SemVer.AtMost(v, c)
    case Below => SemVer.Less(v, c)
    case Pessimistic => AgreesButLast(p.version, v)
    case Equal => v == c
    case NotEqual => v != c
    case Bare => v == c
  }

  /** The numbers as they are written, zero where none is. */
  function WrittenNumbers(w: Written): (nat, nat, nat) {
    match w
    case MajorOnly(a) => (a, 0, 0)
    case MajorMinor(a, b) => (a, b, 0)
    case Full(a, b, c) => (a, b, c)
  }

  /** The target is below the release with these numbers: by its numbers, or as one of its pre-releases. */
  predicate IsBelow(v: SemVer.Version, numbers: (nat, nat, nat)) {
    var (a, b, c) := numbers;
    || v.major < a
    || (v.major == a && v.minor < b)
    || (v.major == a && v.minor == b && v.patch < c)
    || (v.major == a && v.minor == b && v.patch == c && v.pre != [])
  }

  /** The target is above the release with these numbers. */
  predicate IsAbove(v: SemVer.Version, numbers: (nat, nat, nat)) {
    var (a, b, c) := numbers;
    v.major > a || (v.major == a && v.minor > b) || (v.major == a && v.minor == b && v.patch > c)
  }

  /** What a part demands of the numbers of the target. */
  predicate Fits(p: Part, v: SemVer.Version) {
    var numbers := WrittenNumbers(p.version);
    match p.op
    case AtLeast => !IsBelow(v, numbers)
    case Above => IsAbove(v, numbers)
    case AtMost => !IsAbove(v, numbers)
    case Below => IsBelow(v, numbers)
    case Pessimistic =>
      && (p.version.MajorMinor? ==> v.major == p.version.major)
      && (p.version.Full? ==> v.major == p.version.major && v.minor == p.version.minor)
    case NotEqual => IsBelow(v, numbers) || IsAbove(v, numbers)
    case _ => !IsBelow(v, numbers) && !IsAbove(v, numbers)
  }

  /** A part holds exactly if the numbers fit; a pre-release is below its release. */
  lemma HoldsIffFits(p: Part, v: SemVer.Version)
    ensures Holds(p, v) <==> Fits(p, v)
  {
    SemVer.PrecedenceIff(v, Completed(p.version));
    SemVer.PrecedenceIff(Completed(p.version), v);
  }

  predicate BoundsBelow(op: Operator) {
    op in {AtLeast, Above, Pessimistic, Equal, Bare}
  }

  predicate BoundsAbove(op: Operator) {
    op in {AtMost, Below, Pessimistic, Equal, Bare}
  }

  // ---------- reading ----------

  predicate IsSpace(c: char) {
    c == ' ' || '\t' <= c <= '\r' || '\U{001C}' <= c <= '\U{001F}'
  }

  function TrimLeft(s: string): string {
    if s != "" && IsSpace(s[0]) then TrimLeft(s[1..]) else s
  }

  function TrimRight(s: string): string {
    if s != "" && IsSpace(s[|s| - 1]) then TrimRight(s[..|s| - 1]) else s
  }

  function Strip(s: string): string {
    TrimRight(TrimLeft(s))
  }

  /** One to three dot-separated numbers between optional spaces; leading zeros are not allowed. */
  function ReadWritten(s: string): Option<Written> {
    var parts := Split(Strip(s), '.');
    if |parts| > 3 || exists i | 0 <= i < |parts| :: !IsCanonical(parts[i]) then None
    else if |parts| == 1 then Some(MajorOnly(Value(parts[0])))
    else if |parts| == 2 then Some(MajorMinor(Value(parts[0]), Value(parts[1])))
    else Some(Full(Value(parts[0]), Value(parts[1]), Value(parts[2])))
  }

  /** The operator a stripped part starts with, and the length of its sign. */
  function ReadOperator(part: string): (r: (Operator, nat))
    ensures r.1 <= |part|
  {
    if StartsWith(part, ">=") then (AtLeast, 2)
    else if StartsWith(part, ">") then (Above, 1)
    else if StartsWith(part, "<=") then (AtMost, 2)
    else if StartsWith(part, "<") then (Below, 1)
    else if StartsWith(part, "~>") then (Pessimistic, 2)
    else if StartsWith(part, "=") then (Equal, 1)
    else if StartsWith(part, "!=") then (NotEqual, 2)
    else (Bare, 0)
  }

  function ReadPart(part: string): Option<Part> {
    var (op, sign) := ReadOperator(part);
    match ReadWritten(part[sign..])
    case Some(w) => Some(Part(op, w))
    case None => None
  }

  /** The non-empty parts in order, each read if possible. */
  function ReadParts(pieces: seq<string>): seq<Option<Part>> {
    if pieces == [] then []
    else
      var init := ReadParts(pieces[..|pieces| - 1]);
      var last := Strip(pieces[|pieces| - 1]);
      if last == "" then init else init + [ReadPart(last)]
  }

  function PartsOf(constraint: string): seq<Option<Part>> {
    ReadParts(Split(constraint, ','))
  }

  // ---------- the verdict on a list of parts ----------

  predicate Good(p: Option<Part>, v: SemVer.Version) {
    p.Some? && Holds(p.value, v)
  }

  /** The first part that cannot be read or does not hold. */
  ghost predicate FirstBad(parts: seq<Option<Part>>, v: SemVer.Version, i: int) {
    0 <= i < |parts| && !Good(parts[i], v) && forall j :: 0 <= j < i ==> Good(parts[j], v)
  }

  ghost predicate AllGood(parts: seq<Option<Part>>, v: SemVer.Version) {
    forall p :: p in parts ==> Good(p, v)
  }

  ghost predicate BoundedBelow(parts: seq<Option<Part>>) {
    exists p :: p in parts && p.Some? && BoundsBelow(p.value.op)
  }

  ghost predicate BoundedAbove(parts: seq<Option<Part>>) {
    exists p :: p in parts && p.Some? && BoundsAbove(p.value.op)
  }

  /** An unreadable first bad part is an error, a failing one an incompatibility; otherwise the bounds decide. */
  ghost predicate IsVerdict(parts: seq<Option<Part>>, v: SemVer.Version, r: Compatibility) {
    match r
    case NoConstraint => false
    case Error => exists i :: FirstBad(parts, v, i) && parts[i].None?
    case Incompatible => exists i :: FirstBad(parts, v, i) && parts[i].Some?
    case Compatible => AllGood(parts, v) && BoundedBelow(parts) && BoundedAbove(parts)
    case ImplicitCompatible => AllGood(parts, v) && !(BoundedBelow(parts) && BoundedAbove(parts))
  }

  /** The verdict on a constraint text; an invalid target is an error before anything else. */
  ghost predicate Evaluates(constraint: string, target: Option<SemVer.Version>, r: Compatibility) {
    if target.None? then r == Error
    else if constraint == "" then r == NoConstraint
    else IsVerdict(PartsOf(constraint), target.value, r)
  }

  /** Tests one part against the target, and tells which bounds it gives. */
  method CheckPart(op: Operator, written: Written, v: SemVer.Version) returns (holds: bool, lower: bool, upper: bool)
    ensures holds <==> Holds(Part(op, written), v)
    ensures holds ==> lower == BoundsBelow(op) && upper == BoundsAbove(op)
  {
    holds, lower, upper := true, false, false;
    var sem := Completed(written);
    SemVer.PrecedenceIsTotalOrder(sem, sem, v);
    match op {
      case AtLeast =>
        if SemVer.Less(v, sem) {
          holds := false;
          return;
        }
        lower := true;
      case Above =>
        if SemVer.AtMost(v, sem) {
          holds := false;
          return;
        }
        lower := true;
      case AtMost =>
        if SemVer.Less(sem, v) {
          holds := false;
          return;
        }
        upper := true;
      case Below =>
        if SemVer.AtMost(sem, v) {
          holds := false;
          return;
        }
        upper := true;
      case Pessimistic =>
        if written.Full? {
          if sem.major != v.major || sem.minor != v.minor {
            holds := false;
            return;
          }
        } else if written.MajorMinor? {
          if sem.major != v.major {
            holds := false;
            return;
          }
        }
        upper, lower := true, true;
      case Equal =>
        if sem != v {
          holds := false;
          return;
        }
        upper, lower := true, true;
      case NotEqual =>
        if sem == v {
          holds := false;
          return;
        }
      case Bare =>
        if sem != v {
          holds := false;
          return;
        }
        upper, lower := true, true;
    }
  }

  /** Evaluates the parts in turn, leaving at the first bad one and recording which bounds were seen. */
  method IsCompatible(constraint: string, target: Option<SemVer.Version>) returns (r: Compatibility)
    ensures Evaluates(constraint, target, r)
  {
    if target.None? {
      return Error;
    }
    var v := target.value;
    var hasLowerBounds, hasUpperBounds := false, false;
    if constraint == "" {
      return NoConstraint;
    }
    var pieces := Split(constraint, ',');
    ghost var seen: seq<Option<Part>> := [];
    for k := 0 to |pieces|
      invariant seen == ReadParts(pieces[..k])
      invariant AllGood(seen, v)
      invariant hasLowerBounds <==> BoundedBelow(seen)
      invariant hasUpperBounds <==> BoundedAbove(seen)
    {
      var part := Strip(pieces[k]);
      ReadPartsNext(pieces, k);
      if part == "" {
        continue;
      }
      var (op, sign) := ReadOperator(part);
      var written := ReadWritten(part[sign..]);
      if written.None? {
        LeaveAt(pieces, v, k, seen, None);
        return Error;
      }
      var holds, lower, upper := CheckPart(op, written.value, v);
      if !holds {
        LeaveAt(pieces, v, k, seen, Some(Part(op, written.value)));
        return Incompatible;
      }
      AllGoodSnoc(seen, Some(Part(op, written.value)), v);
      hasLowerBounds := hasLowerBounds || lower;
      hasUpperBounds := hasUpperBounds || upper;
      seen := seen + [Some(Part(op, written.value))];
    }
    assert pieces[..|pieces|] == pieces;
    r := if hasUpperBounds && hasLowerBounds then Compatible else ImplicitCompatible;
  }

  lemma ReadPartsNext(pieces: seq<string>, k: nat)
    requires k < |pieces|
    ensures ReadParts(pieces[..k + 1])
            == ReadParts(pieces[..k]) + if Strip(pieces[k]) == "" then [] else [ReadPart(Strip(pieces[k]))]
  {
    assert pieces[..k + 1][..k] == pieces[..k];
  }

  lemma {:induction false} ReadPartsPrefix(pieces: seq<string>, k: nat)
    requires k <= |pieces|
    ensures ReadParts(pieces[..k]) <= ReadParts(pieces)
    decreases |pieces|
  {
    if k == |pieces| {
      assert pieces[..k] == pieces;
    } else {
      ReadPartsPrefix(pieces[..|pieces| - 1], k);
      assert pieces[..|pieces| - 1][..k] == pieces[..k];
    }
  }

  /** Leaving the loop at a bad part, all parts before it being good, gives the verdict. */
  lemma LeaveAt(pieces: seq<string>, v: SemVer.Version, k: nat, seen: seq<Option<Part>>, bad: Option<Part>)
    requires k < |pieces| && ReadParts(pieces[..k + 1]) == seen + [bad]
    requires AllGood(seen, v) && !Good(bad, v)
    ensures IsVerdict(ReadParts(pieces), v, if bad.None? then Error else Incompatible)
  {
    ReadPartsPrefix(pieces, k + 1);
    BadAfter(ReadParts(pieces), seen, bad, v);
  }

  lemma BadAfter(parts: seq<Option<Part>>, seen: seq<Option<Part>>, bad: Option<Part>, v: SemVer.Version)
    requires seen + [bad] <= parts && AllGood(seen, v) && !Good(bad, v)
    ensures FirstBad(parts, v, |seen|) && parts[|seen|] == bad
  {
    assert parts[|seen|] == (seen + [bad])[|seen|];
    forall j | 0 <= j < |seen|
      ensures Good(parts[j], v)
    {
      assert parts[j] == (seen + [bad])[j] == seen[j] && seen[j] in seen;
    }
  }

  // ---------- what the verdict means ----------

  predicate Accepted(r: Compatibility) {
    r == Compatible || r == ImplicitCompatible
  }

  /** Exactly one verdict fits every constraint and target. */
  lemma VerdictIsUnique(constraint: string, target: Option<SemVer.Version>, r1: Compatibility, r2: Compatibility)
    requires Evaluates(constraint, target, r1) && Evaluates(constraint, target, r2)
    ensures r1 == r2
  {
    if target.Some? && constraint != "" {
      var parts, v := PartsOf(constraint), target.value;
      BadIsNotGood(parts, v);
      forall i, j | FirstBad(parts, v, i) && FirstBad(parts, v, j)
        ensures i == j
      {
        assert !(i < j) && !(j < i);
      }
    }
  }

  lemma BadIsNotGood(parts: seq<Option<Part>>, v: SemVer.Version)
    ensures (exists i :: FirstBad(parts, v, i)) ==> !AllGood(parts, v)
  {
    if i :| FirstBad(parts, v, i) {
      assert parts[i] in parts && !Good(parts[i], v);
    }
  }

  /** A target is accepted exactly when every non-empty part can be read and holds. */
  lemma AcceptedIffAllHold(constraint: string, v: SemVer.Version, r: Compatibility)
    requires constraint != "" && Evaluates(constraint, Some(v), r)
    ensures Accepted(r) <==> AllGood(PartsOf(constraint), v)
  {
    BadIsNotGood(PartsOf(constraint), v);
  }

  /** If all parts can be read, the verdict does not depend on their order. */
  lemma OrderDoesNotMatter(c1: string, c2: string, v: SemVer.Version, r1: Compatibility, r2: Compatibility)
    requires c1 != "" && c2 != "" && Evaluates(c1, Some(v), r1) && Evaluates(c2, Some(v), r2)
    ensures multiset(PartsOf(c1)) == multiset(PartsOf(c2)) && None !in PartsOf(c1) ==> r1 == r2
  {
    if multiset(PartsOf(c1)) == multiset(PartsOf(c2)) && None !in PartsOf(c1) {
      SamePartsSameVerdict(PartsOf(c1), PartsOf(c2), v, r1, r2);
    }
  }

  lemma SamePartsSameVerdict(p1: seq<Option<Part>>, p2: seq<Option<Part>>, v: SemVer.Version,
                             r1: Compatibility, r2: Compatibility)
    requires multiset(p1) == multiset(p2) && None !in p1 && IsVerdict(p1, v, r1) && IsVerdict(p2, v, r2)
    ensures r1 == r2
  {
    assert forall p :: p in p1 <==> p in multiset(p1);
    assert forall p :: p in p2 <==> p in multiset(p2);
    BadIsNotGood(p1, v);
    BadIsNotGood(p2, v);
  }

  ghost predicate NoExclusions(parts: seq<Option<Part>>) {
    forall p :: p in parts && p.Some? ==> p.value.op != NotEqual
  }

  lemma HoldsIsConvex(p: Part, low: SemVer.Version, v: SemVer.Version, high: SemVer.Version)
    requires p.op != NotEqual
    requires Holds(p, low) && Holds(p, high) && SemVer.AtMost(low, v) && SemVer.AtMost(v, high)
    ensures Holds(p, v)
  {
    var c := Completed(p.version);
    SemVer.PrecedenceIsTotalOrder(low, v, high);
    SemVer.PrecedenceIsTotalOrder(c, low, v);
    SemVer.PrecedenceIsTotalOrder(v, high, c);
  }

  /** Without exclusions, a target between two accepted targets is accepted. */
  lemma AcceptedIsConvex(constraint: string, low: SemVer.Version, v: SemVer.Version, high: SemVer.Version,
                         rLow: Compatibility, r: Compatibility, rHigh: Compatibility)
    requires constraint != "" && NoExclusions(PartsOf(constraint))
    requires SemVer.AtMost(low, v) && SemVer.AtMost(v, high)
    requires Evaluates(constraint, Some(low), rLow) && Accepted(rLow)
    requires Evaluates(constraint, Some(high), rHigh) && Accepted(rHigh)
    requires Evaluates(constraint, Some(v), r)
    ensures Accepted(r) && r == rLow
  {
    AcceptedIffAllHold(constraint, low, rLow);
    AcceptedIffAllHold(constraint, high, rHigh);
    AcceptedIffAllHold(constraint, v, r);
    forall p | p in PartsOf(constraint)
      ensures Good(p, v)
    {
      assert Good(p, low) && Good(p, high);
      HoldsIsConvex(p.value, low, v, high);
    }
  }

  // ---------- printed constraints ----------

  /** The white space of ASCII. */
  predicate IsBlank(c: char) {
    || c == ' ' || c == '\t' || c == '\n' || c == '\U{000B}' || c == '\U{000C}' || c == '\r'
    || c == '\U{001C}' || c == '\U{001D}' || c == '\U{001E}' || c == '\U{001F}'
  }

  ghost predicate AllSpace(s: string) {
    forall i :: 0 <= i < |s| ==> IsBlank(s[i])
  }

  function Sign(op: Operator): string {
    match op
    case AtLeast => ">="
    case Above => ">"
    case AtMost => "<="
    case Below => "<"
    case Pessimistic => "~>"
    case Equal => "="
    case NotEqual => "!="
    case Bare => ""
  }

  function ShowWritten(w: Written): string {
    match w
    case MajorOnly(a) => Show(a)
    case MajorMinor(a, b) => Show(a) + "." + Show(b)
    case Full(a, b, c) => Show(a) + "." + Show(b) + "." + Show(c)
  }

  /** Something between two commas: spaces only, or a part with optional spaces. */
  datatype Item =
    | Blank(space: string)
    | Spaced(before: string, part: Part, between: string, after: string)

  ghost predicate Spacing(item: Item) {
    match item
    case Blank(s) => AllSpace(s)
    case Spaced(a, _, b, c) => AllSpace(a) && AllSpace(b) && AllSpace(c)
  }

  function ShowItem(item: Item): string {
    match item
    case Blank(s) => s
    case Spaced(a, p, b, c) => a + Sign(p.op) + b + ShowWritten(p.version) + c
  }

  function ShowItems(items: seq<Item>): (shown: seq<string>)
    ensures |shown| == |items|
  {
    if items == [] then [] else ShowItems(items[..|items| - 1]) + [ShowItem(items[|items| - 1])]
  }

  /** The constraint text of a list of items. */
  function ShowConstraint(items: seq<Item>): string {
    Join(ShowItems(items), ',')
  }

  /** The syntax tree: the parts among the items. */
  function PartsAmong(items: seq<Item>): seq<Option<Part>> {
    if items == [] then []
    else
      var init := PartsAmong(items[..|items| - 1]);
      match items[|items| - 1]
      case Blank(_) => init
      case Spaced(_, p, _, _) => init + [Some(p)]
  }

  lemma {:induction false} TrimLeftSpace(a: string, s: string)
    requires AllSpace(a)
    ensures TrimLeft(a + s) == TrimLeft(s)
  {
    if a == "" {
      assert a + s == s;
    } else {
      assert (a + s)[1..] == a[1..] + s;
      TrimLeftSpace(a[1..], s);
    }
  }

  lemma {:induction false} TrimRightSpace(s: string, a: string)
    requires AllSpace(a)
    ensures TrimRight(s + a) == TrimRight(s)
  {
    if a == "" {
      assert s + a == s;
    } else {
      assert (s + a)[..|s + a| - 1] == s + a[..|a| - 1];
      TrimRightSpace(s, a[..|a| - 1]);
    }
  }

  lemma StripSpaces(s: string)
    requires AllSpace(s)
    ensures Strip(s) == ""
  {
    TrimLeftSpace(s, "");
    assert s + "" == s;
  }

  lemma StripPadded(a: string, s: string, b: string)
    requires AllSpace(a) && AllSpace(b) && s != "" && !IsSpace(s[0]) && !IsSpace(s[|s| - 1])
    ensures Strip(a + s + b) == s
  {
    assert a + s + b == a + (s + b);
    TrimLeftSpace(a, s + b);
    TrimRightSpace(s, b);
  }

  lemma ShowWrittenChars(w: Written)
    ensures var s := ShowWritten(w); s != "" && IsDigit(s[0]) && IsDigit(s[|s| - 1])
    ensures var s := ShowWritten(w); forall i :: 0 <= i < |s| ==> IsDigit(s[i]) || s[i] == '.'
  {
  }

  lemma ShownIsCanonical(n: nat)
    ensures '.' !in Show(n) && IsCanonical(Show(n)) && Value(Show(n)) == n
  {
    ValueOfShow(n);
  }

  lemma SplitDotted(a: string, b: string, c: string)
    requires '.' !in a && '.' !in b && '.' !in c
    ensures Split(a + "." + b, '.') == [a, b] && Split(a + "." + b + "." + c, '.') == [a, b, c]
  {
    SplitUnbroken(a, '.');
    SplitUnbroken(b, '.');
    SplitUnbroken(c, '.');
    SplitAtSeparator(a, b, '.');
    SplitAtSeparator(a + "." + b, c, '.');
  }

  function Digits(w: Written): seq<string> {
    match w
    case MajorOnly(a) => [Show(a)]
    case MajorMinor(a, b) => [Show(a), Show(b)]
    case Full(a, b, c) => [Show(a), Show(b), Show(c)]
  }

  lemma SplitShownWritten(w: Written)
    ensures Split(ShowWritten(w), '.') == Digits(w)
  {
    ShownIsCanonical(w.major);
    match w
    case MajorOnly(a) =>
      SplitUnbroken(Show(a), '.');
    case MajorMinor(a, b) =>
      ShownIsCanonical(b);
      SplitDotted(Show(a), Show(b), "");
    case Full(a, b, c) =>
      ShownIsCanonical(b);
      ShownIsCanonical(c);
      SplitDotted(Show(a), Show(b), Show(c));
  }

  lemma ReadDigits(s: string, w: Written)
    requires Split(Strip(s), '.') == Digits(w)
    ensures ReadWritten(s) == Some(w)
  {
    ShownIsCanonical(w.major);
    if !w.MajorOnly? {
      ShownIsCanonical(w.minor);
    }
    if w.Full? {
      ShownIsCanonical(w.patch);
    }
  }

  lemma ReadShownWritten(space: string, w: Written)
    requires AllSpace(space)
    ensures ReadWritten(space + ShowWritten(w)) == Some(w)
  {
    ShowWrittenChars(w);
    StripPadded(space, ShowWritten(w), "");
    assert space + ShowWritten(w) + "" == space + ShowWritten(w);
    SplitShownWritten(w);
    ReadDigits(space + ShowWritten(w), w);
  }

  lemma ReadShownOperator(op: Operator, rest: string)
    requires rest != "" && (IsSpace(rest[0]) || IsDigit(rest[0])) && (op == Bare ==> IsDigit(rest[0]))
    ensures ReadOperator(Sign(op) + rest) == (op, |Sign(op)|)
  {
    var s := Sign(op) + rest;
    assert s[|Sign(op)|] == rest[0];
    match op
    case Bare => assert s[0] == rest[0];
    case Above => assert s[0] == '>' && s[1] == rest[0];
    case Below => assert s[0] == '<' && s[1] == rest[0];
    case Equal => assert s[0] == '=';
    case AtLeast => assert s[..2] == ">=";
    case AtMost => assert s[..2] == "<=" && s[0] == '<';
    case Pessimistic => assert s[..2] == "~>" && s[0] == '~';
    case NotEqual => assert s[..2] == "!=" && s[0] == '!';
  }

  /** The text is one part of a constraint, not blank, and is read as the given part. */
  ghost predicate ReadsAs(text: string, p: Part) {
    Strip(text) != "" && ReadPart(Strip(text)) == Some(p)
  }

  lemma ReadShownItem(item: Item)
    requires Spacing(item) && item.Spaced?
    ensures ReadsAs(ShowItem(item), item.part)
  {
    var Spaced(a, p, b, c) := item;
    var text := ShowItem(item);
    assert text == a + Sign(p.op) + b + ShowWritten(p.version) + c;
    if p.op == Bare {
      ReadShownBare(a, p.version, b, c, text);
      assert p == Part(Bare, p.version);
    } else {
      ReadShownSigned(a, p, b, c, text);
    }
  }

  lemma ReadShownBare(a: string, w: Written, b: string, c: string, text: string)
    requires AllSpace(a) && AllSpace(b) && AllSpace(c) && text == a + Sign(Bare) + b + ShowWritten(w) + c
    ensures ReadsAs(text, Part(Bare, w))
  {
    var shown, sign := ShowWritten(w), Sign(Bare);
    ShowWrittenChars(w);
    assert AllSpace(a + b);
    assert a + sign + b + shown + c == a + b + shown + c;
    StripPadded(a + b, shown, c);
    ReadShownOperator(Bare, shown);
    assert sign + shown == shown && shown[|sign|..] == shown;
    ReadShownWritten(sign, w);
  }

  lemma ReadShownSigned(a: string, p: Part, b: string, c: string, text: string)
    requires AllSpace(a) && AllSpace(b) && AllSpace(c) && p.op != Bare
    requires text == a + Sign(p.op) + b + ShowWritten(p.version) + c
    ensures ReadsAs(text, p)
  {
    var sign, shown := Sign(p.op), ShowWritten(p.version);
    ShowWrittenChars(p.version);
    var core := sign + (b + shown);
    assert text == a + core + c;
    assert core[|core| - 1] == shown[|shown| - 1];
    StripPadded(a, core, c);
    ReadShownOperator(p.op, b + shown);
    assert core[|sign|..] == b + shown;
    ReadShownWritten(b, p.version);
  }

  lemma {:induction false} ReadShownItems(items: seq<Item>)
    requires forall i :: 0 <= i < |items| ==> Spacing(items[i])
    ensures ReadParts(ShowItems(items)) == PartsAmong(items)
    decreases |items|
  {
    if items != [] {
      var init, last := items[..|items| - 1], items[|items| - 1];
      ReadShownItems(init);
      assert ShowItems(items)[..|items| - 1] == ShowItems(init);
      if last.Blank? {
        StripSpaces(last.space);
      } else {
        ReadShownItem(last);
      }
    }
  }

  lemma NoCommas(item: Item)
    requires Spacing(item)
    ensures ',' !in ShowItem(item)
  {
    match item
    case Blank(s) =>
      SpaceHasNoCommas(s);
    case Spaced(a, p, b, c) =>
      SpaceHasNoCommas(a);
      SpaceHasNoCommas(b);
      SpaceHasNoCommas(c);
      WrittenHasNoCommas(p.version);
  }

  lemma SpaceHasNoCommas(s: string)
    requires AllSpace(s)
    ensures ',' !in s
  {
  }

  lemma WrittenHasNoCommas(w: Written)
    ensures ',' !in ShowWritten(w)
  {
    ShowWrittenChars(w);
    assert forall i :: 0 <= i < |ShowWritten(w)| ==> ShowWritten(w)[i] != ',';
  }

  lemma {:induction false} ShownItemsSeparable(items: seq<Item>)
    requires forall i :: 0 <= i < |items| ==> Spacing(items[i])
    ensures Separable(ShowItems(items), ',')
    decreases |items|
  {
    if items != [] {
      ShownItemsSeparable(items[..|items| - 1]);
      NoCommas(items[|items| - 1]);
    }
  }

  /** Reading a printed constraint gives back its syntax tree, whatever the spacing. */
  lemma ReadShownConstraint(items: seq<Item>)
    requires items != [] && forall i :: 0 <= i < |items| ==> Spacing(items[i])
    ensures PartsOf(ShowConstraint(items)) == PartsAmong(items)
  {
    ShownItemsSeparable(items);
    SplitOfJoin(ShowItems(items), ',');
    ReadShownItems(items);
  }

  ghost predicate AllPartsHold(items: seq<Item>, v: SemVer.Version) {
    forall i :: 0 <= i < |items| ==> items[i].Spaced? ==> Fits(items[i].part, v)
  }

  /** A printed constraint accepts exactly the targets whose numbers fit all its parts, and rejects all others. */
  lemma PrintedConstraintMeaning(items: seq<Item>, v: SemVer.Version, r: Compatibility)
    requires items != [] && forall i :: 0 <= i < |items| ==> Spacing(items[i])
    requires ShowConstraint(items) != "" && Evaluates(ShowConstraint(items), Some(v), r)
    ensures AllPartsHold(items, v) ==> Accepted(r)
    ensures !AllPartsHold(items, v) ==> r == Incompatible
  {
    ReadShownConstraint(items);
    AcceptedIffAllHold(ShowConstraint(items), v, r);
    PartsAmongHold(items, v);
  }

  lemma {:induction false} PartsAmongHold(items: seq<Item>, v: SemVer.Version)
    ensures AllGood(PartsAmong(items), v) <==> AllPartsHold(items, v)
    ensures None !in PartsAmong(items)
    decreases |items|
  {
    if items != [] {
      var init, last := items[..|items| - 1], items[|items| - 1];
      PartsAmongHold(init, v);
      assert AllPartsHold(items, v) <==> AllPartsHold(init, v) && (last.Spaced? ==> Fits(last.part, v)) by {
        assert items == init + [last];
      }
      if last.Spaced? {
        HoldsIffFits(last.part, v);
        AllGoodSnoc(PartsAmong(init), Some(last.part), v);
      }
    }
  }

  lemma AllGoodSnoc(parts: seq<Option<Part>>, p: Option<Part>, v: SemVer.Version)
    ensures AllGood(parts + [p], v) <==> AllGood(parts, v) && Good(p, v)
  {
    var all := parts + [p];
    assert forall q :: q in all <==> q in parts || q == p;
    assert p in all;
  }

  /** The text of a single comparison. */
  function ShowPart(op: Operator, w: Written): string {
    Sign(op) + ShowWritten(w)
  }

  lemma ShownPartIsItem(op: Operator, w: Written)
    ensures var item := Spaced("", Part(op, w), "", "");
            ShowPart(op, w) == ShowConstraint([item]) != "" && Spacing(item)
  {
    var item := Spaced("", Part(op, w), "", "");
    ShowWrittenChars(w);
    UnpaddedItem(item, op, w);
    SingleItem(item);
  }

  lemma UnpaddedItem(item: Item, op: Operator, w: Written)
    requires item == Spaced("", Part(op, w), "", "")
    ensures ShowItem(item) == ShowPart(op, w)
  {
    assert Sign(op) + "" == Sign(op) && "" + Sign(op) == Sign(op);
    assert ShowPart(op, w) + "" == ShowPart(op, w);
  }

  lemma SingleItem(item: Item)
    ensures ShowConstraint([item]) == ShowItem(item)
  {
    assert [item][..0] == [];
    assert ShowItems([item]) == [ShowItem(item)];
  }

  /** `>= a.b.c` rejects every pre-release of a.b.c, and `< a.b.c` accepts every one. */
  lemma PreReleaseIsBelowBound(a: nat, b: nat, c: nat, pre: seq<SemVer.Identifier>,
                               rLow: Compatibility, rHigh: Compatibility)
    requires pre != []
    requires Evaluates(ShowPart(AtLeast, Full(a, b, c)), Some(SemVer.Version(a, b, c, pre)), rLow)
    requires Evaluates(ShowPart(Below, Full(a, b, c)), Some(SemVer.Version(a, b, c, pre)), rHigh)
    ensures rLow == Incompatible && Accepted(rHigh)
  {
    var v, w := SemVer.Version(a, b, c, pre), Full(a, b, c);
    ShownPartIsItem(AtLeast, w);
    ShownPartIsItem(Below, w);
    var low, high := [Spaced("", Part(AtLeast, w), "", "")], [Spaced("", Part(Below, w), "", "")];
    assert !Fits(low[0].part, v);
    PrintedConstraintMeaning(low, v, rLow);
    PrintedConstraintMeaning(high, v, rHigh);
  }

  // ---------- only printed constraints can be read ----------

  lemma {:induction false} TrimLeftIs(s: string) returns (a: string)
    ensures AllSpace(a) && s == a + TrimLeft(s)
    ensures TrimLeft(s) != "" ==> !IsSpace(TrimLeft(s)[0])
  {
    a := "";
    if s != "" && IsSpace(s[0]) {
      var rest := TrimLeftIs(s[1..]);
      a := [s[0]] + rest;
    }
  }

  lemma {:induction false} TrimRightIs(s: string) returns (b: string)
    ensures AllSpace(b) && s == TrimRight(s) + b
  {
    b := "";
    if s != "" && IsSpace(s[|s| - 1]) {
      var rest := TrimRightIs(s[..|s| - 1]);
      b := rest + [s[|s| - 1]];
    }
  }

  lemma StripIs(s: string) returns (a: string, b: string)
    ensures AllSpace(a) && AllSpace(b) && s == a + Strip(s) + b
  {
    a := TrimLeftIs(s);
    b := TrimRightIs(TrimLeft(s));
  }

  lemma JoinedDigits(parts: seq<string>, w: Written)
    requires parts == Digits(w)
    ensures Join(parts, '.') == ShowWritten(w)
  {
    match w
    case MajorOnly(a) =>
    case MajorMinor(a, b) => assert parts[1..] == [Show(b)];
    case Full(a, b, c) =>
      assert parts[1..] == [Show(b), Show(c)] && parts[1..][1..] == [Show(c)];
      assert Join(parts[1..][1..], '.') == Show(c) && Join(parts[1..], '.') == Show(b) + ['.'] + Show(c);
  }

  lemma WrittenIsShown(s: string) returns (a: string, b: string)
    requires ReadWritten(s).Some?
    ensures AllSpace(a) && AllSpace(b) && s == a + ShowWritten(ReadWritten(s).value) + b
  {
    a, b := StripIs(s);
    var parts, w := Split(Strip(s), '.'), ReadWritten(s).value;
    forall i | 0 <= i < |parts|
      ensures Show(Value(parts[i])) == parts[i]
    {
      ShowOfValue(parts[i]);
    }
    assert parts == Digits(w);
    JoinedDigits(parts, w);
    JoinOfSplit(Strip(s), '.');
  }

  lemma OperatorIsSign(part: string)
    ensures var (op, sign) := ReadOperator(part); part[..sign] == Sign(op)
  {
  }

  lemma PartIsShown(part: string) returns (b: string, d: string)
    requires ReadPart(part).Some?
    ensures AllSpace(b) && AllSpace(d)
    ensures var p := ReadPart(part).value; part == Sign(p.op) + b + ShowWritten(p.version) + d
  {
    var (op, sign) := ReadOperator(part);
    var rest := part[sign..];
    OperatorIsSign(part);
    b, d := WrittenIsShown(rest);
    assert part == part[..sign] + rest;
  }

  /** A piece that is blank or can be read is a printed item. */
  lemma PieceIsShown(piece: string) returns (item: Item)
    requires Strip(piece) != "" ==> ReadPart(Strip(piece)).Some?
    ensures Spacing(item) && ShowItem(item) == piece
  {
    var a, c := StripIs(piece);
    if Strip(piece) == "" {
      item := Blank(a + c);
    } else {
      var p := ReadPart(Strip(piece)).value;
      var b, d := PartIsShown(Strip(piece));
      item := Spaced(a, p, b, d + c);
      AroundPart(a, Sign(p.op), b, ShowWritten(p.version), d, c, piece);
    }
  }

  lemma AroundPart(a: string, sign: string, b: string, shown: string, d: string, c: string, piece: string)
    requires piece == a + (sign + b + shown + d) + c
    ensures piece == a + sign + b + shown + (d + c)
  {
  }

  ghost predicate IsPrinted(piece: string) {
    exists item :: Spacing(item) && ShowItem(item) == piece
  }

  lemma ReadPieceIsPrinted(pieces: seq<string>, k: nat)
    requires k < |pieces| && None !in ReadParts(pieces)
    ensures IsPrinted(pieces[k])
  {
    ReadPieceAt(pieces, k);
    var item := PieceIsShown(pieces[k]);
  }

  lemma ReadPieceAt(pieces: seq<string>, k: nat)
    requires k < |pieces| && None !in ReadParts(pieces)
    ensures Strip(pieces[k]) != "" ==> ReadPart(Strip(pieces[k])).Some?
  {
    var earlier := ReadParts(pieces[..k]);
    ReadPartsNext(pieces, k);
    ReadPartsPrefix(pieces, k + 1);
    if Strip(pieces[k]) != "" {
      assert ReadParts(pieces)[|earlier|] == ReadParts(pieces[..k + 1])[|earlier|] == ReadPart(Strip(pieces[k]));
    }
  }

  lemma {:induction false} PrintedItems(pieces: seq<string>) returns (items: seq<Item>)
    requires forall i :: 0 <= i < |pieces| ==> IsPrinted(pieces[i])
    ensures (forall i :: 0 <= i < |items| ==> Spacing(items[i])) && ShowItems(items) == pieces
    decreases |pieces|
  {
    items := [];
    if pieces != [] {
      var init := pieces[..|pieces| - 1];
      var earlier := PrintedItems(init);
      var item :| Spacing(item) && ShowItem(item) == pieces[|pieces| - 1];
      items := earlier + [item];
      assert items[..|items| - 1] == earlier;
    }
  }

  /** All parts of a constraint can be read exactly if it is the printed form of some parts with some spacing. */
  lemma ReadableIffPrinted(constraint: string)
    ensures None !in PartsOf(constraint) <==>
            exists items: seq<Item> ::
              items != [] && (forall i :: 0 <= i < |items| ==> Spacing(items[i])) && ShowConstraint(items) == constraint
  {
    if None !in PartsOf(constraint) {
      var pieces := Split(constraint, ',');
      forall k | 0 <= k < |pieces|
        ensures IsPrinted(pieces[k])
      {
        ReadPieceIsPrinted(pieces, k);
      }
      var items := PrintedItems(pieces);
      JoinOfSplit(constraint, ',');
    }
    if items: seq<Item> :| items != [] && (forall i :: 0 <= i < |items| ==> Spacing(items[i]))
                           && ShowConstraint(items) == constraint {
      ReadShownConstraint(items);
      NoneAmongParts(items);
    }
  }

  lemma {:induction false} NoneAmongParts(items: seq<Item>)
    ensures None !in PartsAmong(items)
    decreases |items|
  {
    if items != [] {
      NoneAmongParts(items[..|items| - 1]);
    }
  }
}
