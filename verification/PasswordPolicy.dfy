/** The complexity rules of apps/auth/src/lib/auth/password-policy-validation.ts. A password is a
    sequence of UTF-16 code units: that is what `length` and the four regular expressions count. */
module PasswordPolicy {
  import opened JsText

  type Unit = n: int | 0 <= n < 0x1_0000
  type Units = seq<Unit>

  datatype Policy = Policy(
    enabled: bool,
    minLength: int,
    maxLength: Option<int>,
    minUppercase: int,
    minLowercase: int,
    minNumber: int,
    minSpecial: int,
    rejectContainsIdentifier: bool)

  datatype Code =
    | TooShort | TooLong | TooFewUppercase | TooFewLowercase | TooFewNumber | TooFewSpecial | ContainsIdentifier

  /** `bound` is the limit broken; `found` the characters counted, 0 where nothing is counted. */
  datatype Violation = Violation(code: Code, bound: int, found: nat)

  datatype CheckResult = CheckResult(ok: bool, violations: seq<Violation>)

  datatype Identifiers = Identifiers(username: Option<Units>, email: Option<Units>)

  /** `trim` and `toLowerCase` on code units. */
  datatype Casing = Casing(trim: Units -> Units, lower: Units -> Units)

  // ---------------------------------------------------------------- counting

  datatype Class = Upper | Lower | Number | Special

  function ClassOf(u: Unit): Class {
    if 65 <= u <= 90 then Upper
    else if 97 <= u <= 122 then Lower
    else if 48 <= u <= 57 then Number
    else Special
  }

  /** `countMatches` with the expression of the class. */
  function Count(password: Units, c: Class): (n: nat)
    ensures n <= |password|
  {
    if password == [] then 0 else Count(password[1..], c) + if ClassOf(password[0]) == c then 1 else 0
  }

  /** Every code unit falls in exactly one class. */
  lemma {:induction false} ClassesPartition(password: Units)
    ensures Count(password, Upper) + Count(password, Lower) + Count(password, Number) + Count(password, Special)
         == |password|
  {
    if password != [] { ClassesPartition(password[1..]); }
  }

  lemma {:induction false} CountConcat(a: Units, b: Units, c: Class)
    ensures Count(a + b, c) == Count(a, c) + Count(b, c)
  {
    if a == [] {
      assert a + b == b;
    } else {
      assert (a + b)[1..] == a[1..] + b;
      CountConcat(a[1..], b, c);
    }
  }

  function Copies(u: Unit, n: nat): (s: Units)
    ensures |s| == n && forall i :: 0 <= i < n ==> s[i] == u
  {
    seq(n, _ => u)
  }

  lemma {:induction false} CountCopies(u: Unit, n: nat, c: Class)
    ensures Count(Copies(u, n), c) == if ClassOf(u) == c then n else 0
  {
    if n > 0 {
      assert Copies(u, n)[1..] == Copies(u, n - 1);
      CountCopies(u, n - 1, c);
    }
  }

  // ---------------------------------------------------------------- the identifier rule

  predicate Includes(s: Units, t: Units) {
    t <= s || (s != [] && Includes(s[1..], t))
  }

  /** Everything before the first `@`. */
  function LocalPart(email: Units): Units {
    if email == [] || email[0] == 64 then [] else [email[0]] + LocalPart(email[1..])
  }

  const MIN_IDENTIFIER_LENGTH := 3

  predicate Hits(password: Units, candidate: Units) {
    |candidate| >= MIN_IDENTIFIER_LENGTH && Includes(password, candidate)
  }

  predicate Given(text: Option<Units>) { text.Some? && text.value != [] }

  predicate HasIdentifier(casing: Casing, password: Units, ids: Identifiers) {
    var haystack := casing.lower(password);
    || (Given(ids.username) && Hits(haystack, casing.lower(casing.trim(ids.username.value))))
    || (Given(ids.email) && Hits(haystack, casing.lower(casing.trim(LocalPart(ids.email.value)))))
  }

  predicate StandsAt(t: Units, s: Units, i: int) { 0 <= i <= |s| - |t| && s[i..i + |t|] == t }

  /** `t` stands somewhere in `s`. */
  ghost predicate OccursIn(t: Units, s: Units) { exists i :: StandsAt(t, s, i) }

  lemma StandsLater(t: Units, s: Units, i: int)
    requires s != [] && i != 0
    ensures StandsAt(t, s, i) <==> StandsAt(t, s[1..], i - 1)
  {
    if 1 <= i <= |s| - |t| { assert s[1..][i - 1..i - 1 + |t|] == s[i..i + |t|]; }
  }

  lemma {:induction false} IncludesIff(s: Units, t: Units)
    ensures Includes(s, t) <==> OccursIn(t, s)
  {
    assert t <= s <==> StandsAt(t, s, 0);
    if s != [] {
      IncludesIff(s[1..], t);
      hide StandsAt;
      if OccursIn(t, s[1..]) {
        var i :| StandsAt(t, s[1..], i);
        NotBefore(t, s[1..], i);
        StandsLater(t, s, i + 1);
      }
      if OccursIn(t, s) {
        var i :| StandsAt(t, s, i);
        if i != 0 { StandsLater(t, s, i); }
      }
    } else if OccursIn(t, s) {
      var i :| StandsAt(t, s, i);
    }
  }

  lemma NotBefore(t: Units, s: Units, i: int)
    requires StandsAt(t, s, i)
    ensures i >= 0
  {
  }

  /** `k` is where the part of an address before its first `@` ends. */
  predicate EndsLocalPart(email: Units, k: nat) {
    && k <= |email| && (k < |email| ==> email[k] == '@' as int)
    && forall i :: 0 <= i < k ==> email[i] != '@' as int
  }

  lemma {:induction false} LocalPartIs(email: Units, k: nat)
    requires EndsLocalPart(email, k)
    ensures LocalPart(email) == email[..k]
  {
    if k > 0 {
      assert EndsLocalPart(email[1..], k - 1);
      LocalPartIs(email[1..], k - 1);
      assert email[..k] == [email[0]] + email[1..][..k - 1];
    }
  }

  /** Exactly when a password contains an identifier: the user name, or the address up to its first
      `@`, trimmed, of three units or more, stands in it, case aside. */
  lemma HasIdentifierIff(casing: Casing, password: Units, ids: Identifiers, k: nat)
    requires ids.email.Some? ==> EndsLocalPart(ids.email.value, k)
    ensures var name := casing.lower(casing.trim(ids.username.GetOr([])));
      var mailbox := casing.lower(casing.trim(if ids.email.Some? then ids.email.value[..k] else []));
      HasIdentifier(casing, password, ids) <==>
        || (ids.username.Some? && ids.username.value != []
            && |name| >= 3 && OccursIn(name, casing.lower(password)))
        || (ids.email.Some? && ids.email.value != []
            && |mailbox| >= 3 && OccursIn(mailbox, casing.lower(password)))
  {
    if ids.email.Some? { LocalPartIs(ids.email.value, k); }
    hide Includes, OccursIn, LocalPart;
    IncludesIff(casing.lower(password), casing.lower(casing.trim(ids.username.GetOr([]))));
    IncludesIff(casing.lower(password),
                casing.lower(casing.trim(if ids.email.Some? then ids.email.value[..k] else [])));
  }

  /** The units a class counts, by their places. */
  function Places(password: Units, low: char, high: char): set<int> {
    set i | 0 <= i < |password| && low as int <= password[i] <= high as int
  }

  lemma PlacesGrow(password: Units, u: Unit, low: char, high: char)
    ensures |Places(password + [u], low, high)|
         == |Places(password, low, high)| + if low as int <= u <= high as int then 1 else 0
  {
    var n := |password|;
    assert forall i :: 0 <= i < n ==> (password + [u])[i] == password[i];
    assert Places(password + [u], low, high)
        == Places(password, low, high) + if low as int <= u <= high as int then {n} else {};
  }

  /** Three of the classes count what stands in their range. */
  lemma {:induction false} CountPlaces(password: Units, c: Class, low: char, high: char)
    requires (c == Upper && low == 'A' && high == 'Z') || (c == Lower && low == 'a' && high == 'z')
          || (c == Number && low == '0' && high == '9')
    ensures Count(password, c) == |Places(password, low, high)|
  {
    hide Places;
    if password == [] {
      NoPlaces(low, high);
    } else {
      var n := |password| - 1;
      CountPlaces(password[..n], c, low, high);
      assert password == password[..n] + [password[n]];
      CountConcat(password[..n], [password[n]], c);
      PlacesGrow(password[..n], password[n], low, high);
    }
  }

  lemma NoPlaces(low: char, high: char)
    ensures Places([], low, high) == {}
  {
  }

  // ---------------------------------------------------------------- validation

  /** The rule a code stands for is broken. */
  predicate Broken(code: Code, p: Policy, casing: Casing, password: Units, ids: Identifiers) {
    match code
    case TooShort => |password| < p.minLength
    case TooLong => p.maxLength.Some? && |password| > p.maxLength.value
    case TooFewUppercase => p.minUppercase > 0 && Count(password, Upper) < p.minUppercase
    case TooFewLowercase => p.minLowercase > 0 && Count(password, Lower) < p.minLowercase
    case TooFewNumber => p.minNumber > 0 && Count(password, Number) < p.minNumber
    case TooFewSpecial => p.minSpecial > 0 && Count(password, Special) < p.minSpecial
    case ContainsIdentifier => p.rejectContainsIdentifier && HasIdentifier(casing, password, ids)
  }

  /** What the policy asks of a password. */
  predicate Compliant(p: Policy, casing: Casing, password: Units, ids: Identifiers) {
    p.enabled ==>
      && p.minLength <= |password|
      && (p.maxLength.Some? ==> |password| <= p.maxLength.value)
      && p.minUppercase <= Count(password, Upper)
      && p.minLowercase <= Count(password, Lower)
      && p.minNumber <= Count(password, Number)
      && p.minSpecial <= Count(password, Special)
      && (p.rejectContainsIdentifier ==> !HasIdentifier(casing, password, ids))
  }

  function Detail(code: Code, p: Policy, password: Units): Violation {
    match code
    case TooShort => Violation(code, p.minLength, 0)
    case TooLong => Violation(code, p.maxLength.GetOr(0), 0)
    case TooFewUppercase => Violation(code, p.minUppercase, Count(password, Upper))
    case TooFewLowercase => Violation(code, p.minLowercase, Count(password, Lower))
    case TooFewNumber => Violation(code, p.minNumber, Count(password, Number))
    case TooFewSpecial => Violation(code, p.minSpecial, Count(password, Special))
    case ContainsIdentifier => Violation(code, 0, 0)
  }

  /** The order in which the rules are looked at. */
  function CodeAt(n: nat): Code
    requires n < 7
  {
    if n == 0 then TooShort
    else if n == 1 then TooLong
    else if n == 2 then TooFewUppercase
    else if n == 3 then TooFewLowercase
    else if n == 4 then TooFewNumber
    else if n == 5 then TooFewSpecial
    else ContainsIdentifier
  }

  /** The details of the broken rules among the first n. */
  function Reports(n: nat, p: Policy, casing: Casing, password: Units, ids: Identifiers): seq<Violation>
    requires n <= 7
  {
    if n == 0 then []
    else
      var vs, code := Reports(n - 1, p, casing, password, ids), CodeAt(n - 1);
      if Broken(code, p, casing, password, ids) then vs + [Detail(code, p, password)] else vs
  }

  function Checked(p: Policy, casing: Casing, password: Units, ids: Identifiers): CheckResult {
    if !p.enabled then CheckResult(true, [])
    else
      var violations := Reports(7, p, casing, password, ids);
      CheckResult(violations == [], violations)
  }

  /** The length rules, one step each. */
  lemma LengthReports(p: Policy, casing: Casing, password: Units, ids: Identifiers)
    ensures Reports(1, p, casing, password, ids)
         == if |password| < p.minLength then [Violation(TooShort, p.minLength, 0)] else []
    ensures Reports(2, p, casing, password, ids)
         == if p.maxLength.Some? && |password| > p.maxLength.value
            then Reports(1, p, casing, password, ids) + [Violation(TooLong, p.maxLength.value, 0)]
            else Reports(1, p, casing, password, ids)
  {
  }

  function CodeOf(c: Class): Code {
    match c
    case Upper => TooFewUppercase
    case Lower => TooFewLowercase
    case Number => TooFewNumber
    case Special => TooFewSpecial
  }

  function Minimum(p: Policy, c: Class): int {
    match c
    case Upper => p.minUppercase
    case Lower => p.minLowercase
    case Number => p.minNumber
    case Special => p.minSpecial
  }

  lemma ClassReport(n: nat, c: Class, p: Policy, casing: Casing, password: Units, ids: Identifiers)
    requires 2 <= n < 6 && CodeAt(n) == CodeOf(c)
    ensures Reports(n + 1, p, casing, password, ids)
         == if Minimum(p, c) > 0 && Count(password, c) < Minimum(p, c)
            then Reports(n, p, casing, password, ids) + [Violation(CodeOf(c), Minimum(p, c), Count(password, c))]
            else Reports(n, p, casing, password, ids)
  {
  }

  lemma IdentifierReport(p: Policy, casing: Casing, password: Units, ids: Identifiers)
    ensures Reports(7, p, casing, password, ids)
         == if p.rejectContainsIdentifier && HasIdentifier(casing, password, ids)
            then Reports(6, p, casing, password, ids) + [Violation(ContainsIdentifier, 0, 0)]
            else Reports(6, p, casing, password, ids)
  {
  }

  method ValidatePasswordAgainstPolicy(p: Policy, casing: Casing, password: Units, ids: Identifiers)
    returns (r: CheckResult)
    ensures r == Checked(p, casing, password, ids)
    ensures r.ok <==> Compliant(p, casing, password, ids)
  {
    hide Reports, Compliant, HasIdentifier, Count, Broken, Detail;
    var violations: seq<Violation> := [];
    if !p.enabled {
      OkIsCompliant(p, casing, password, ids);
      return CheckResult(true, violations);
    }
    LengthReports(p, casing, password, ids);
    if |password| < p.minLength {
      violations := violations + [Violation(TooShort, p.minLength, 0)];
    }
    assert violations == Reports(1, p, casing, password, ids);
    if p.maxLength.Some? && |password| > p.maxLength.value {
      violations := violations + [Violation(TooLong, p.maxLength.value, 0)];
    }
    assert violations == Reports(2, p, casing, password, ids);
    ClassReport(2, Upper, p, casing, password, ids);
    if p.minUppercase > 0 {
      var found := Count(password, Upper);
      if found < p.minUppercase {
        violations := violations + [Violation(TooFewUppercase, p.minUppercase, found)];
      }
    }
    assert violations == Reports(3, p, casing, password, ids);
    ClassReport(3, Lower, p, casing, password, ids);
    if p.minLowercase > 0 {
      var found := Count(password, Lower);
      if found < p.minLowercase {
        violations := violations + [Violation(TooFewLowercase, p.minLowercase, found)];
      }
    }
    assert violations == Reports(4, p, casing, password, ids);
    ClassReport(4, Number, p, casing, password, ids);
    if p.minNumber > 0 {
      var found := Count(password, Number);
      if found < p.minNumber {
        violations := violations + [Violation(TooFewNumber, p.minNumber, found)];
      }
    }
    assert violations == Reports(5, p, casing, password, ids);
    ClassReport(5, Special, p, casing, password, ids);
    if p.minSpecial > 0 {
      var found := Count(password, Special);
      if found < p.minSpecial {
        violations := violations + [Violation(TooFewSpecial, p.minSpecial, found)];
      }
    }
    assert violations == Reports(6, p, casing, password, ids);
    IdentifierReport(p, casing, password, ids);
    if p.rejectContainsIdentifier {
      var matches := HasIdentifier(casing, password, ids);
      if matches {
        violations := violations + [Violation(ContainsIdentifier, 0, 0)];
      }
    }
    assert violations == Reports(7, p, casing, password, ids);
    OkIsCompliant(p, casing, password, ids);
    return CheckResult(|violations| == 0, violations);
  }

  lemma {:induction false} ReportsEmpty(n: nat, p: Policy, casing: Casing, password: Units, ids: Identifiers)
    requires n <= 7
    ensures Reports(n, p, casing, password, ids) == []
       <==> forall k | 0 <= k < n :: !Broken(CodeAt(k), p, casing, password, ids)
  {
    hide Broken, CodeAt;
    if n > 0 { ReportsEmpty(n - 1, p, casing, password, ids); }
  }

  lemma OkIsCompliant(p: Policy, casing: Casing, password: Units, ids: Identifiers)
    ensures Checked(p, casing, password, ids).ok <==> Compliant(p, casing, password, ids)
  {
    hide Reports, HasIdentifier, Count;
    ReportsEmpty(7, p, casing, password, ids);
    assert (forall k | 0 <= k < 7 :: !Broken(CodeAt(k), p, casing, password, ids))
       <==> forall code :: !Broken(code, p, casing, password, ids) by {
      forall code | Broken(code, p, casing, password, ids)
        ensures exists k | 0 <= k < 7 :: Broken(CodeAt(k), p, casing, password, ids)
      {
        assert code in {CodeAt(0), CodeAt(1), CodeAt(2), CodeAt(3), CodeAt(4), CodeAt(5), CodeAt(6)};
      }
    }
    if p.enabled { CompliantMeansUnbroken(p, casing, password, ids); }
  }

  lemma CompliantMeansUnbroken(p: Policy, casing: Casing, password: Units, ids: Identifiers)
    requires p.enabled
    ensures Compliant(p, casing, password, ids) <==> forall code :: !Broken(code, p, casing, password, ids)
  {
    hide HasIdentifier, Count;
    if forall code :: !Broken(code, p, casing, password, ids) {
      assert !Broken(TooShort, p, casing, password, ids) && !Broken(TooLong, p, casing, password, ids);
      assert !Broken(TooFewUppercase, p, casing, password, ids) && !Broken(TooFewLowercase, p, casing, password, ids);
      assert !Broken(TooFewNumber, p, casing, password, ids) && !Broken(TooFewSpecial, p, casing, password, ids);
      assert !Broken(ContainsIdentifier, p, casing, password, ids);
    }
  }

  // ---------------------------------------------------------------- the checklist

  /** The rule is one the policy has. */
  predicate Listed(code: Code, p: Policy) {
    match code
    case TooShort => true
    case TooLong => p.maxLength.Some?
    case TooFewUppercase => p.minUppercase > 0
    case TooFewLowercase => p.minLowercase > 0
    case TooFewNumber => p.minNumber > 0
    case TooFewSpecial => p.minSpecial > 0
    case ContainsIdentifier => p.rejectContainsIdentifier
  }

  /** The rules of the policy among the first n. */
  function ListedOf(n: nat, p: Policy): seq<Code>
    requires n <= 7
  {
    if n == 0 then []
    else
      var codes := ListedOf(n - 1, p);
      if Listed(CodeAt(n - 1), p) then codes + [CodeAt(n - 1)] else codes
  }

  function Requirements(p: Policy): seq<Code> {
    if p.enabled then ListedOf(7, p) else []
  }

  lemma ListedStep(n: nat, p: Policy)
    requires n < 7
    ensures ListedOf(0, p) == []
    ensures ListedOf(n + 1, p) == if Listed(CodeAt(n), p) then ListedOf(n, p) + [CodeAt(n)] else ListedOf(n, p)
  {
  }

  method ListPolicyRequirements(p: Policy) returns (codes: seq<Code>)
    ensures codes == Requirements(p)
  {
    hide ListedOf;
    if !p.enabled { return []; }
    codes := [TooShort];
    ListedStep(0, p);
    assert codes == ListedOf(1, p);
    ListedStep(1, p);
    if p.maxLength.Some? { codes := codes + [TooLong]; }
    ListedStep(2, p);
    if p.minUppercase > 0 { codes := codes + [TooFewUppercase]; }
    ListedStep(3, p);
    if p.minLowercase > 0 { codes := codes + [TooFewLowercase]; }
    assert codes == ListedOf(4, p);
    ListedStep(4, p);
    if p.minNumber > 0 { codes := codes + [TooFewNumber]; }
    ListedStep(5, p);
    if p.minSpecial > 0 { codes := codes + [TooFewSpecial]; }
    ListedStep(6, p);
    if p.rejectContainsIdentifier { codes := codes + [ContainsIdentifier]; }
  }

  function CodesOf(vs: seq<Violation>): (codes: seq<Code>)
    ensures |codes| == |vs| && forall i :: 0 <= i < |vs| ==> codes[i] == vs[i].code
  {
    seq(|vs|, i requires 0 <= i < |vs| => vs[i].code)
  }

  /** `a` is `b` with some elements left out. */
  predicate SubList(a: seq<Code>, b: seq<Code>) {
    if a == [] then true
    else if b == [] then false
    else
      || (a[|a| - 1] == b[|b| - 1] && SubList(a[..|a| - 1], b[..|b| - 1]))
      || SubList(a, b[..|b| - 1])
  }

  lemma SubListGrow(a: seq<Code>, b: seq<Code>, c: Code)
    requires SubList(a, b)
    ensures SubList(a, b + [c]) && SubList(a + [c], b + [c])
  {
    assert (b + [c])[..|b + [c]| - 1] == b && (a + [c])[..|a + [c]| - 1] == a;
  }

  lemma {:induction false} ReportsWithin(n: nat, p: Policy, casing: Casing, password: Units, ids: Identifiers)
    requires n <= 7
    ensures SubList(CodesOf(Reports(n, p, casing, password, ids)), ListedOf(n, p))
  {
    if n > 0 {
      ReportsWithin(n - 1, p, casing, password, ids);
      var vs, c := Reports(n - 1, p, casing, password, ids), CodeAt(n - 1);
      hide Broken, CodeAt, Listed, SubList, Detail;
      SubListGrow(CodesOf(vs), ListedOf(n - 1, p), c);
      BrokenIsListed(c, p, casing, password, ids);
      DetailCode(c, p, password);
      assert CodesOf(vs + [Detail(c, p, password)]) == CodesOf(vs) + [c];
    }
  }

  lemma DetailCode(c: Code, p: Policy, password: Units)
    ensures Detail(c, p, password).code == c
  {
  }

  lemma BrokenIsListed(c: Code, p: Policy, casing: Casing, password: Units, ids: Identifiers)
    ensures Broken(c, p, casing, password, ids) ==> Listed(c, p)
  {
  }

  /** A violation is always reported under a line of the checklist, and in its order. */
  lemma ViolationsFollowChecklist(p: Policy, casing: Casing, password: Units, ids: Identifiers)
    ensures SubList(CodesOf(Checked(p, casing, password, ids).violations), Requirements(p))
  {
    if p.enabled { ReportsWithin(7, p, casing, password, ids); }
  }

  lemma {:induction false} ReportedBelow(n: nat, code: Code, p: Policy, casing: Casing, password: Units,
                                         ids: Identifiers)
    requires n <= 7
    ensures code in CodesOf(Reports(n, p, casing, password, ids))
       <==> Broken(code, p, casing, password, ids) && exists k | 0 <= k < n :: CodeAt(k) == code
  {
    hide Broken, CodeAt, Detail;
    if n > 0 {
      ReportedBelow(n - 1, code, p, casing, password, ids);
      var vs, c := Reports(n - 1, p, casing, password, ids), CodeAt(n - 1);
      DetailCode(c, p, password);
      assert CodesOf(vs + [Detail(c, p, password)]) == CodesOf(vs) + [c];
    }
  }

  /** A line of the checklist is unmet exactly when its code is among the violations. */
  lemma ReportedIffBroken(code: Code, p: Policy, casing: Casing, password: Units, ids: Identifiers)
    ensures code in CodesOf(Checked(p, casing, password, ids).violations)
       <==> p.enabled && Broken(code, p, casing, password, ids)
  {
    hide Reports, Broken;
    ReportedBelow(7, code, p, casing, password, ids);
    assert code in [CodeAt(0), CodeAt(1), CodeAt(2), CodeAt(3), CodeAt(4), CodeAt(5), CodeAt(6)];
    assert exists k | 0 <= k < 7 :: CodeAt(k) == code;
  }

  /** The order in which rules are shown: lengths, then classes, then identifiers. */
  function Rank(code: Code): nat {
    match code
    case TooShort => 0
    case TooLong => 1
    case TooFewUppercase => 2
    case TooFewLowercase => 3
    case TooFewNumber => 4
    case TooFewSpecial => 5
    case ContainsIdentifier => 6
  }

  /** In that order, each rule once, all before the n-th. */
  predicate Ascends(codes: seq<Code>, n: nat) {
    && (forall i | 0 <= i < |codes| :: Rank(codes[i]) < n)
    && forall i, j | 0 <= i < j < |codes| :: Rank(codes[i]) < Rank(codes[j])
  }

  lemma AscendsMore(codes: seq<Code>, n: nat, c: Code)
    requires Ascends(codes, n) && Rank(c) == n
    ensures Ascends(codes, n + 1) && Ascends(codes + [c], n + 1)
  {
    hide Rank;
  }

  /** Checklist and violations both come in that order. */
  lemma InOrder(p: Policy, casing: Casing, password: Units, ids: Identifiers)
    ensures Ascends(Requirements(p), 7) && Ascends(CodesOf(Checked(p, casing, password, ids).violations), 7)
  {
    hide Reports, ListedOf;
    Ascending(7, p, casing, password, ids);
  }

  lemma {:induction false} Ascending(n: nat, p: Policy, casing: Casing, password: Units, ids: Identifiers)
    requires n <= 7
    ensures Ascends(ListedOf(n, p), n) && Ascends(CodesOf(Reports(n, p, casing, password, ids)), n)
  {
    if n > 0 {
      Ascending(n - 1, p, casing, password, ids);
      var vs, c := Reports(n - 1, p, casing, password, ids), CodeAt(n - 1);
      assert Rank(c) == n - 1;
      hide Broken, Detail, Listed, CodeAt, Rank, Ascends;
      AscendsMore(ListedOf(n - 1, p), n - 1, c);
      AscendsMore(CodesOf(vs), n - 1, c);
      DetailCode(c, p, password);
      assert CodesOf(vs + [Detail(c, p, password)]) == CodesOf(vs) + [c];
    }
  }

  /** The line is on the checklist exactly if the policy has the rule. */
  lemma ListedIff(code: Code, p: Policy)
    ensures code in Requirements(p) <==>
      p.enabled && match code
                   case TooShort => true
                   case TooLong => p.maxLength.Some?
                   case TooFewUppercase => p.minUppercase > 0
                   case TooFewLowercase => p.minLowercase > 0
                   case TooFewNumber => p.minNumber > 0
                   case TooFewSpecial => p.minSpecial > 0
                   case ContainsIdentifier => p.rejectContainsIdentifier
  {
    hide ListedOf;
    ListedBelow(7, code, p);
    assert code in [CodeAt(0), CodeAt(1), CodeAt(2), CodeAt(3), CodeAt(4), CodeAt(5), CodeAt(6)];
    assert exists k | 0 <= k < 7 :: CodeAt(k) == code;
  }

  lemma {:induction false} ListedBelow(n: nat, code: Code, p: Policy)
    requires n <= 7
    ensures code in ListedOf(n, p) <==> Listed(code, p) && exists k | 0 <= k < n :: CodeAt(k) == code
  {
    hide Listed, CodeAt;
    if n > 0 { ListedBelow(n - 1, code, p); }
  }

  /** Which violation is reported exactly when, with which numbers. */
  lemma ViolationsAre(p: Policy, casing: Casing, password: Units, ids: Identifiers, v: Violation)
    ensures v in Checked(p, casing, password, ids).violations <==>
      p.enabled && match v.code
                   case TooShort => |password| < p.minLength && v.bound == p.minLength && v.found == 0
                   case TooLong =>
                     p.maxLength.Some? && |password| > p.maxLength.value && v.bound == p.maxLength.value && v.found == 0
                   case TooFewUppercase => TooFew(p.minUppercase, Count(password, Upper), v)
                   case TooFewLowercase => TooFew(p.minLowercase, Count(password, Lower), v)
                   case TooFewNumber => TooFew(p.minNumber, Count(password, Number), v)
                   case TooFewSpecial => TooFew(p.minSpecial, Count(password, Special), v)
                   case ContainsIdentifier =>
                     p.rejectContainsIdentifier && HasIdentifier(casing, password, ids) && v.bound == 0 && v.found == 0
  {
    hide Reports, HasIdentifier, Count;
    ReportsAre(7, p, casing, password, ids, v);
    assert v.code in [CodeAt(0), CodeAt(1), CodeAt(2), CodeAt(3), CodeAt(4), CodeAt(5), CodeAt(6)];
    assert exists k | 0 <= k < 7 :: CodeAt(k) == v.code;
  }

  predicate TooFew(minimum: int, found: nat, v: Violation) {
    0 < minimum && found < minimum && v.bound == minimum && v.found == found
  }

  lemma {:induction false} ReportsAre(n: nat, p: Policy, casing: Casing, password: Units, ids: Identifiers,
                                      v: Violation)
    requires n <= 7
    ensures v in Reports(n, p, casing, password, ids) <==>
      Broken(v.code, p, casing, password, ids) && v == Detail(v.code, p, password)
      && exists k | 0 <= k < n :: CodeAt(k) == v.code
  {
    hide Broken, CodeAt, Detail;
    if n > 0 {
      ReportsAre(n - 1, p, casing, password, ids, v);
      DetailCode(CodeAt(n - 1), p, password);
    }
  }

  // ---------------------------------------------------------------- which policies can be met

  function Max(a: int, b: int): int { if a > b then a else b }

  /** The shortest length that leaves room for everything the policy asks. */
  function Needed(p: Policy): (n: nat) {
    Max(Max(0, p.minLength),
        Max(0, p.minUppercase) + Max(0, p.minLowercase) + Max(0, p.minNumber) + Max(0, p.minSpecial))
  }

  /** A password of exactly the needed length: A..., a..., 0..., !..., filled up with a. */
  function Witness(p: Policy): Units {
    var u, l, d, s := Max(0, p.minUppercase), Max(0, p.minLowercase), Max(0, p.minNumber), Max(0, p.minSpecial);
    Copies(65, u) + Copies(97, l) + Copies(48, d) + Copies(33, s) + Copies(97, Needed(p) - (u + l + d + s))
  }

  lemma CountParts(a: Units, b: Units, c: Units, d: Units, e: Units, k: Class)
    ensures Count(a + b + c + d + e, k) == Count(a, k) + Count(b, k) + Count(c, k) + Count(d, k) + Count(e, k)
  {
    CountConcat(a, b, k);
    CountConcat(a + b, c, k);
    CountConcat(a + b + c, d, k);
    CountConcat(a + b + c + d, e, k);
  }

  lemma WitnessCounts(p: Policy, k: Class)
    ensures |Witness(p)| == Needed(p)
    ensures Count(Witness(p), k) >= match k
              case Upper => p.minUppercase
              case Lower => p.minLowercase
              case Number => p.minNumber
              case Special => p.minSpecial
  {
    var u, l, d, s := Max(0, p.minUppercase), Max(0, p.minLowercase), Max(0, p.minNumber), Max(0, p.minSpecial);
    var fill := Needed(p) - (u + l + d + s);
    CountParts(Copies(65, u), Copies(97, l), Copies(48, d), Copies(33, s), Copies(97, fill), k);
    CountCopies(65, u, k);
    CountCopies(97, l, k);
    CountCopies(48, d, k);
    CountCopies(33, s, k);
    CountCopies(97, fill, k);
  }

  /** Without the identifier rule, an enabled policy can be met exactly when its maximum length
      leaves room for the minimum length and for the four class minima together. */
  lemma Satisfiable(p: Policy, casing: Casing, ids: Identifiers)
    requires p.enabled && !p.rejectContainsIdentifier
    ensures (exists password :: Compliant(p, casing, password, ids))
       <==> (p.maxLength.None? || p.maxLength.value >= Needed(p))
  {
    if p.maxLength.None? || p.maxLength.value >= Needed(p) {
      WitnessCounts(p, Upper);
      WitnessCounts(p, Lower);
      WitnessCounts(p, Number);
      WitnessCounts(p, Special);
      assert Compliant(p, casing, Witness(p), ids);
    }
    forall password | Compliant(p, casing, password, ids)
      ensures p.maxLength.None? || p.maxLength.value >= Needed(p)
    {
      ClassesPartition(password);
    }
  }

  /** Every bound of `q` is at most as strict as that of `p`. */
  predicate Looser(q: Policy, p: Policy) {
    && (q.enabled ==> p.enabled)
    && q.minLength <= p.minLength
    && (q.maxLength.Some? ==> p.maxLength.Some? && p.maxLength.value <= q.maxLength.value)
    && q.minUppercase <= p.minUppercase && q.minLowercase <= p.minLowercase
    && q.minNumber <= p.minNumber && q.minSpecial <= p.minSpecial
    && (q.rejectContainsIdentifier ==> p.rejectContainsIdentifier)
  }

  /** Loosening a policy keeps every password that met it. */
  lemma LooseningKeeps(q: Policy, p: Policy, casing: Casing, password: Units, ids: Identifiers)
    requires Looser(q, p)
    ensures Checked(p, casing, password, ids).ok ==> Checked(q, casing, password, ids).ok
  {
    OkIsCompliant(p, casing, password, ids);
    OkIsCompliant(q, casing, password, ids);
  }

  // ---------------------------------------------------------------- what an administrator can save

  /** The checks `validateRules` makes on the numbers of a policy before it is stored. */
  predicate RulesAccepted(p: Policy) {
    && p.minLength >= 1
    && p.minUppercase >= 0 && p.minLowercase >= 0 && p.minNumber >= 0 && p.minSpecial >= 0
    && (p.maxLength.Some? ==> p.maxLength.value >= 1 && p.maxLength.value >= p.minLength)
  }

  /** The saved rules can be met exactly when the class minima together fit under the maximum:
      a comparison `validateRules` does not make. */
  lemma AcceptedRulesSatisfiable(p: Policy, casing: Casing, ids: Identifiers)
    requires RulesAccepted(p) && p.enabled && !p.rejectContainsIdentifier
    ensures (exists password :: Compliant(p, casing, password, ids))
       <==> (p.maxLength.Some? ==> p.minUppercase + p.minLowercase + p.minNumber + p.minSpecial <= p.maxLength.value)
  {
    Satisfiable(p, casing, ids);
  }

  /** One upper-case and one lower-case letter in a single character: accepted, never met. */
  lemma AcceptedButImpossible(casing: Casing, ids: Identifiers) returns (p: Policy)
    ensures RulesAccepted(p) && p.enabled
    ensures forall password :: !Compliant(p, casing, password, ids)
  {
    p := Policy(true, 1, Some(1), 1, 1, 0, 0, false);
    Satisfiable(p, casing, ids);
  }
}
