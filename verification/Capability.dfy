/**
 Channel capabilities.  A version capability such as V1_1 counts as present when a greater version
 is; "greater" is the order of strings, which is the order of versions only within limits.
 */
module Capability {
  import opened StringOrder

  type Capabilities = map<string, map<string, bool>>

  // ----- the pattern ^V(\d+(_\d+?)*)$ -----

  predicate IsDigit(c: char) {
    '0' <= c <= '9'
  }

  predicate IsVersion(s: string) {
    |s| > 0 && s[0] == 'V' && IsNumbers(s[1..])
  }

  /** A digit, then what may follow one. */
  predicate IsNumbers(s: string) {
    |s| > 0 && IsDigit(s[0]) && MayFollowDigit(s[1..])
  }

  predicate MayFollowDigit(s: string)
    decreases |s|
  {
    || |s| == 0
    || (IsDigit(s[0]) && MayFollowDigit(s[1..]))
    || (s[0] == '_' && |s| > 1 && IsDigit(s[1]) && MayFollowDigit(s[2..]))
  }

  // ----- HasCapability -----

  /** The capability itself, or a greater version of it. */
  ghost predicate Supports(group: map<string, bool>, capability: string) {
    || (capability in group && group[capability])
    || (IsVersion(capability) && exists c | c in group :: IsVersion(c) && Less(capability, c))
  }

  method HasCapability(capabilities: Capabilities, group: string, capability: string) returns (r: bool)
    ensures r <==> group in capabilities && Supports(capabilities[group], capability)
  {
    if group !in capabilities {
      return false;
    }
    var groupCapabilities := capabilities[group];
    if capability in groupCapabilities && groupCapabilities[capability] {
      return true;
    }
    if IsVersion(capability) {
      var todo := groupCapabilities.Keys;
      while todo != {}
        invariant todo <= groupCapabilities.Keys
        invariant forall c | c in groupCapabilities && c !in todo :: !(IsVersion(c) && Less(capability, c))
        decreases todo
      {
        var c :| c in todo;
        if IsVersion(c) && Less(capability, c) {
          return true;
        }
        todo := todo - {c};
      }
    }
    return false;
  }

  /** More capabilities never support less. */
  lemma Monotone(small: map<string, bool>, large: map<string, bool>, capability: string)
    requires forall c | c in small :: c in large && large[c] == small[c]
    requires Supports(small, capability)
    ensures Supports(large, capability)
  {
  }

  /** A group that supports a version supports every smaller one. */
  lemma DownwardClosed(group: map<string, bool>, low: string, high: string)
    requires IsVersion(low) && IsVersion(high) && Less(low, high) && Supports(group, high)
    ensures Supports(group, low)
  {
    if !(high in group && group[high]) {
      var c :| c in group && IsVersion(c) && Less(high, c);
      Transitive(low, high, c);
    }
  }

  // ----- versions as sequences of numbers -----

  ghost predicate IsNumber(s: string) {
    |s| > 0 && forall i | 0 <= i < |s| :: IsDigit(s[i])
  }

  /** The components of a version, each as its digits. */
  ghost predicate IsParts(parts: seq<string>) {
    |parts| > 0 && forall i | 0 <= i < |parts| :: IsNumber(parts[i])
  }

  function Join(parts: seq<string>): string
    requires |parts| > 0
  {
    if |parts| == 1 then parts[0] else parts[0] + "_" + Join(parts[1..])
  }

  function Render(parts: seq<string>): string
    requires |parts| > 0
  {
    "V" + Join(parts)
  }

  /** The pattern accepts exactly the rendered versions. */
  lemma PatternIff(s: string)
    ensures IsVersion(s) <==> exists parts :: IsParts(parts) && s == Render(parts)
  {
    if IsVersion(s) {
      var parts := Parse(s[1..]);
      assert s == "V" + s[1..];
      assert IsParts(parts) && s == Render(parts);
    }
    forall parts | IsParts(parts) && s == Render(parts)
      ensures IsVersion(s)
    {
      assert s[1..] == Join(parts);
      JoinMatches(parts);
    }
  }

  lemma {:induction false} Parse(s: string) returns (parts: seq<string>)
    requires IsNumbers(s)
    ensures IsParts(parts) && s == Join(parts)
    decreases |s|
  {
    if |s| == 1 {
      parts := [s];
    } else if IsDigit(s[1]) {
      var rest := Parse(s[1..]);
      parts := [[s[0]] + rest[0]] + rest[1..];
      assert s == [s[0]] + s[1..];
      if |rest| > 1 {
        assert parts[1..] == rest[1..];
        assert [s[0]] + (rest[0] + "_" + Join(rest[1..])) == ([s[0]] + rest[0]) + "_" + Join(rest[1..]);
      }
    } else {
      assert s[1..][0] == '_' && IsDigit(s[2]) && s[1..][2..] == s[2..][1..];
      var rest := Parse(s[2..]);
      parts := [[s[0]]] + rest;
      assert parts[1..] == rest;
      assert s == [s[0]] + "_" + s[2..];
    }
  }

  lemma {:induction false} JoinMatches(parts: seq<string>)
    requires IsParts(parts)
    ensures IsNumbers(Join(parts))
    decreases |parts|
  {
    var tail := "";
    if |parts| > 1 {
      JoinMatches(parts[1..]);
      tail := "_" + Join(parts[1..]);
      assert tail[1..] == Join(parts[1..]) && tail[2..] == tail[1..][1..];
      assert MayFollowDigit(tail);
    }
    assert Join(parts) == parts[0] + tail;
    DigitsThen(parts[0], tail);
  }

  lemma {:induction false} DigitsThen(digits: string, tail: string)
    requires IsNumber(digits) && MayFollowDigit(tail)
    ensures IsNumbers(digits + tail)
  {
    var s := digits + tail;
    if |digits| == 1 {
      assert s[1..] == tail;
    } else {
      assert s[1..] == digits[1..] + tail;
      DigitsThen(digits[1..], tail);
    }
  }

  /** A name that is no version is supported iff it is listed and set; other names do not matter. */
  lemma PlainNamesIff(group: map<string, bool>, capability: string)
    requires forall parts | IsParts(parts) :: capability != Render(parts)
    ensures Supports(group, capability) <==> capability in group && group[capability]
  {
    PatternIff(capability);
  }

  /** A version is supported iff it is listed and set, or a version that is greater as a string is
      listed, set or not. */
  lemma VersionsIff(group: map<string, bool>, q: seq<string>)
    requires IsParts(q)
    ensures Supports(group, Render(q)) <==>
            || (Render(q) in group && group[Render(q)])
            || exists p :: IsParts(p) && Render(p) in group && Less(Render(q), Render(p))
  {
    PatternIff(Render(q));
    if c :| c in group && IsVersion(c) && Less(Render(q), c) {
      PatternIff(c);
      var p :| IsParts(p) && c == Render(p);
    }
    if p :| IsParts(p) && Render(p) in group && Less(Render(q), Render(p)) {
      PatternIff(Render(p));
    }
  }

  // ----- the order of versions -----

  function Power10(n: nat): nat {
    if n == 0 then 1 else 10 * Power10(n - 1)
  }

  function Digit(c: char): (d: nat)
    requires IsDigit(c)
    ensures d < 10
  {
    c as int - '0' as int
  }

  ghost function Value(digits: string): nat
    requires forall i | 0 <= i < |digits| :: IsDigit(digits[i])
  {
    if digits == "" then 0
    else Digit(digits[0]) * Power10(|digits| - 1) + Value(digits[1..])
  }

  /** Component by component as numbers; a version is smaller than its extensions. */
  ghost predicate VersionLess(p: seq<string>, q: seq<string>)
    requires p != [] ==> IsParts(p)
    requires q != [] ==> IsParts(q)
    decreases |p|
  {
    && q != []
    && (|| p == []
        || Value(p[0]) < Value(q[0])
        || (Value(p[0]) == Value(q[0]) && VersionLess(p[1..], q[1..])))
  }

  lemma {:induction false} ValueBound(digits: string)
    requires forall i | 0 <= i < |digits| :: IsDigit(digits[i])
    ensures Value(digits) < Power10(|digits|)
  {
    if digits != "" {
      ValueBound(digits[1..]);
      LeadingDigit(Digit(digits[0]), 10, Power10(|digits| - 1), Value(digits[1..]), 0);
    }
  }

  lemma LeadingDigit(a: nat, b: nat, power: nat, u: nat, v: nat)
    requires a < b && u < power
    ensures a * power + u < b * power + v
  {
    assert (a + 1) * power <= b * power;
  }

  /** Numbers of one width are ordered as their digits are. */
  lemma {:induction false} SameWidthOrder(x: string, y: string)
    requires |x| == |y|
    requires forall i | 0 <= i < |x| :: IsDigit(x[i]) && IsDigit(y[i])
    ensures Less(x, y) <==> Value(x) < Value(y)
  {
    if x != "" {
      var x', y' := x[1..], y[1..];
      SameWidthOrder(x', y');
      ValueBound(x');
      ValueBound(y');
      var a, b, power := Digit(x[0]), Digit(y[0]), Power10(|x| - 1);
      if a < b {
        LeadingDigit(a, b, power, Value(x'), Value(y'));
      } else if b < a {
        LeadingDigit(b, a, power, Value(y'), Value(x'));
      }
    }
  }

  ghost predicate SameWidths(p: seq<string>, q: seq<string>) {
    forall i | 0 <= i < |p| && i < |q| :: |p[i]| == |q[i]|
  }

  function Rest(parts: seq<string>): string
    requires |parts| > 0
  {
    if |parts| == 1 then "" else "_" + Join(parts[1..])
  }

  lemma JoinRest(parts: seq<string>)
    requires |parts| > 0
    ensures Join(parts) == parts[0] + Rest(parts)
  {
  }

  /** Versions whose components have equal widths are ordered as their strings are. */
  lemma {:induction false} WidthsDecide(p: seq<string>, q: seq<string>)
    requires IsParts(p) && IsParts(q) && SameWidths(p, q)
    ensures Less(Join(p), Join(q)) <==> VersionLess(p, q)
    decreases |p|
  {
    var x, y := p[0], q[0];
    assert |x| == |y|;
    JoinRest(p);
    JoinRest(q);
    SameWidthOrder(x, y);
    if x != y {
      SameLength(x, y, Rest(p), Rest(q));
      SameWidthOrder(y, x);
      Trichotomy(x, y);
    } else {
      CommonPrefix(x, Rest(p), Rest(q));
      if |p| > 1 && |q| > 1 {
        CommonPrefix("_", Join(p[1..]), Join(q[1..]));
        assert SameWidths(p[1..], q[1..]) by {
          assert forall i | 0 <= i < |p| - 1 && i < |q| - 1 :: p[1..][i] == p[i + 1] && q[1..][i] == q[i + 1];
        }
        WidthsDecide(p[1..], q[1..]);
      }
    }
  }

  ghost predicate AtMost(parts: seq<string>, width: nat) {
    IsParts(parts) && forall i | 0 <= i < |parts| :: |parts[i]| <= width
  }

  /** String order is version order for components of up to `width` digits iff that is one digit. */
  lemma StringOrderIsVersionOrderIff(width: nat)
    requires width > 0
    ensures (forall p, q | AtMost(p, width) && AtMost(q, width) :: Less(Render(p), Render(q)) <==> VersionLess(p, q)) <==>
            width == 1
  {
    if width == 1 {
      forall p, q | AtMost(p, width) && AtMost(q, width)
        ensures Less(Render(p), Render(q)) <==> VersionLess(p, q)
      {
        OneDigitOrder(p, q);
      }
    } else {
      TenBeforeTwo();
      assert AtMost(["10"], width) && AtMost(["2"], width);
    }
  }

  lemma OneDigitOrder(p: seq<string>, q: seq<string>)
    requires AtMost(p, 1) && AtMost(q, 1)
    ensures Less(Render(p), Render(q)) <==> VersionLess(p, q)
  {
    forall i | 0 <= i < |p| && i < |q|
      ensures |p[i]| == |q[i]|
    {
      assert IsNumber(p[i]) && IsNumber(q[i]);
    }
    WidthsDecide(p, q);
    CommonPrefix("V", Join(p), Join(q));
  }

  /** V10 is below V2 as a string and above it as a version. */
  lemma TenBeforeTwo()
    ensures IsParts(["10"]) && IsParts(["2"])
    ensures Less(Render(["10"]), Render(["2"])) && !VersionLess(["10"], ["2"])
  {
    assert Render(["10"])[1..] == "10" && Render(["2"])[1..] == "2";
    assert "10"[1..] == "0" && "0"[1..] == "" && "2"[1..] == "";
    assert Power10(1) == 10 && Value("0") == 0 && Value("2") == 2;
    assert Value("10") == 10;
  }

  // ----- when the two orders agree on a pair -----

  /** A numeral without leading zeros. */
  ghost predicate IsCanonical(digits: string) {
    IsNumber(digits) && (|digits| > 1 ==> digits[0] != '0')
  }

  ghost predicate AllCanonical(parts: seq<string>) {
    |parts| > 0 && forall i | 0 <= i < |parts| :: IsCanonical(parts[i])
  }

  /** At the first component in which the versions differ one has ended, or both components have one
      width, or the shorter component, with the "_" that follows it if any, is the smaller string. */
  ghost predicate OrdersAgree(p: seq<string>, q: seq<string>)
    decreases |p|
  {
    if p == [] || q == [] then true
    else if p[0] == q[0] then OrdersAgree(p[1..], q[1..])
    else if |p[0]| == |q[0]| then true
    else if |p[0]| < |q[0]| then Less(p[0] + Mark(p), q[0])
    else Less(q[0] + Mark(q), p[0])
  }

  function Mark(parts: seq<string>): string {
    if |parts| > 1 then "_" else ""
  }

  lemma {:induction false} PowerGrows(m: nat, n: nat)
    requires m <= n
    ensures Power10(m) <= Power10(n)
    decreases n - m
  {
    if m < n {
      PowerGrows(m, n - 1);
    }
  }

  /** Of two numerals without leading zeros the shorter is the smaller number. */
  lemma ShorterIsSmaller(x: string, y: string)
    requires IsCanonical(x) && IsCanonical(y) && |x| < |y|
    ensures Value(x) < Value(y)
  {
    ValueBound(x);
    PowerGrows(|x|, |y| - 1);
    LeadingDigit(0, Digit(y[0]), Power10(|y| - 1), Value(x), Value(y[1..]));
  }

  /** A shorter numeral and its rest against a longer one: the first character behind the shorter
      decides when it is a prefix of the longer. */
  lemma {:induction false} ShorterFirst(x: string, y: string, a: string, b: string)
    requires |x| < |y| && IsNumber(y)
    requires a == "" || a[0] == '_'
    ensures Less(x + a, y + b) <==> Less(x + if a == "" then "" else "_", y)
    ensures Less(y + b, x + a) <==> !Less(x + a, y + b)
    decreases |x|
  {
    var mark := if a == "" then "" else "_";
    if x == "" {
      assert x + a == a && x + mark == mark && (y + b)[0] == y[0] && IsDigit(y[0]);
    } else {
      assert (x + a)[1..] == x[1..] + a && (x + mark)[1..] == x[1..] + mark && (y + b)[1..] == y[1..] + b;
      assert IsNumber(y[1..]);
      ShorterFirst(x[1..], y[1..], a, b);
    }
  }

  /** String order and version order agree on two versions without leading zeros exactly then. */
  lemma {:induction false} OrdersAgreeIff(p: seq<string>, q: seq<string>)
    requires AllCanonical(p) && AllCanonical(q)
    ensures (Less(Join(p), Join(q)) <==> VersionLess(p, q)) <==> OrdersAgree(p, q)
    decreases |p|
  {
    var x, y := p[0], q[0];
    JoinRest(p);
    JoinRest(q);
    if x == y {
      CommonPrefix(x, Rest(p), Rest(q));
      if |p| > 1 && |q| > 1 {
        CommonPrefix("_", Join(p[1..]), Join(q[1..]));
        OrdersAgreeIff(p[1..], q[1..]);
      }
    } else if |x| == |y| {
      SameLength(x, y, Rest(p), Rest(q));
      SameWidthOrder(x, y);
      SameWidthOrder(y, x);
      Trichotomy(x, y);
    } else if |x| < |y| {
      ShorterIsSmaller(x, y);
      ShorterFirst(x, y, Rest(p), Rest(q));
    } else {
      ShorterIsSmaller(y, x);
      ShorterFirst(y, x, Rest(q), Rest(p));
    }
  }

  /** So HasCapability tells correctly from one listed version whether another is supported, that is
      not newer, iff the orders agree on the two. */
  lemma SeenCorrectlyIff(p: seq<string>, q: seq<string>)
    requires AllCanonical(p) && AllCanonical(q)
    ensures (Supports(map[Render(p) := true], Render(q)) <==> !VersionLess(p, q)) <==> OrdersAgree(p, q)
  {
    OrdersAgreeIff(p, q);
    CommonPrefix("V", Join(p), Join(q));
    Trichotomy(Render(p), Render(q));
    PatternIff(Render(p));
    PatternIff(Render(q));
  }

  /** So a group with one-digit version components supports a version iff it lists one that is not
      older. */
  lemma SupportsIffNotOlder(group: map<string, bool>, q: seq<string>)
    requires AtMost(q, 1)
    requires forall c | c in group :: group[c]
    requires forall p | IsParts(p) && Render(p) in group :: AtMost(p, 1)
    ensures Supports(group, Render(q)) <==> exists p :: IsParts(p) && Render(p) in group && !VersionLess(p, q)
  {
    PatternIff(Render(q));
    if p :| IsParts(p) && Render(p) in group && !VersionLess(p, q) {
      OneDigitOrder(p, q);
      Trichotomy(Render(p), Render(q));
      PatternIff(Render(p));
    }
    if Supports(group, Render(q)) {
      if Render(q) in group {
        OneDigitOrder(q, q);
        Trichotomy(Render(q), Render(q));
      } else {
        var c :| c in group && IsVersion(c) && Less(Render(q), c);
        PatternIff(c);
        var p :| IsParts(p) && c == Render(p);
        OneDigitOrder(p, q);
        Trichotomy(c, Render(q));
      }
    }
  }

  /** With two digits a listed newer version can go unseen. */
  lemma NewerVersionUnseen()
    ensures !Supports(map["V10" := true], "V2")
  {
    TenBeforeTwo();
    assert Render(["10"]) == "V10" && Render(["2"]) == "V2";
    Trichotomy("V2", "V10");
  }
}
