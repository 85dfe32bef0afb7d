/**
 Path variable substitution.  The program splits a path at every "${" and rejoins the pieces; the
 meaning it should have is a scanner that reads the path once, from left to right.
 */
module PathSubst {

  /** The variables that are set: the local table and the environment. */
  type Lookup = map<string, string>

  predicate Opens(s: string) {
    |s| >= 2 && s[0] == '$' && s[1] == '{'
  }

  // ----- the implementation's library calls -----

  /** The first index at which "${" occurs, or -1. */
  function FindOpen(s: string): (i: int)
    ensures -1 <= i && (i >= 0 ==> i + 2 <= |s| && Opens(s[i..]))
  {
    if |s| == 0 then -1
    else if Opens(s) then 0
    else
      var i := FindOpen(s[1..]);
      if i < 0 then -1 else (assert s[1..][i..] == s[i + 1..]; i + 1)
  }

  /** The first index of "}", or -1. */
  function FindClose(s: string): (i: int)
    ensures -1 <= i < |s| && (i >= 0 ==> s[i] == '}')
  {
    if |s| == 0 then -1
    else if s[0] == '}' then 0
    else
      var i := FindClose(s[1..]);
      if i < 0 then -1 else i + 1
  }

  /** strings.Split at "${". */
  function Split(s: string): (pieces: seq<string>)
    ensures |pieces| > 0
    decreases |s|
  {
    var i := FindOpen(s);
    if i < 0 then [s] else [s[..i]] + Split(s[i + 2..])
  }

  /** substVar, both results: the substituted portion and the unconsumed rest of the piece. */
  function SubstVar(s: string, noMatch: string, lookup: Lookup): (string, string) {
    var end := FindClose(s);
    if end < 0 then (noMatch, s)
    else if s[..end] !in lookup then (noMatch, s)
    else (lookup[s[..end]], s[end + 1..])
  }

  // ----- the meaning -----

  /** Length of the variable name at the head of `s`: up to the first "}", if that comes before any
      further "${"; -1 when there is no such name. */
  function NameEnd(s: string): (n: int)
    ensures -1 <= n < |s|
  {
    if |s| == 0 || Opens(s) then -1
    else if s[0] == '}' then 0
    else
      var n := NameEnd(s[1..]);
      if n < 0 then -1 else n + 1
  }

  /** One pass from left to right: a resolved variable is replaced and skipped, and everything
      else, including an unresolved or unterminated "${", is copied. */
  function Scan(s: string, lookup: Lookup): string
    decreases |s|
  {
    if |s| == 0 then ""
    else if !Opens(s) then [s[0]] + Scan(s[1..], lookup)
    else
      var n := NameEnd(s[2..]);
      if n < 0 || s[2..][..n] !in lookup then "${" + Scan(s[2..], lookup)
      else lookup[s[2..][..n]] + Scan(s[2..][n + 1..], lookup)
  }

  // ----- the program -----

  method Subst(path: string, lookup: Lookup) returns (r: string)
    ensures r == Scan(path, lookup)
  {
    var splits := Split(path);
    var buffer := splits[0];
    var i := 1;
    assert splits[1..] == splits[i..];
    while i < |splits|
      invariant 1 <= i <= |splits|
      invariant splits[0] + Rejoin(splits[1..], lookup) == buffer + Rejoin(splits[i..], lookup)
    {
      var (subst, rest) := SubstVar(splits[i], "${", lookup);
      assert splits[i..][1..] == splits[i + 1..];
      Assoc(buffer, subst, rest);
      Assoc(buffer, subst + rest, Rejoin(splits[i + 1..], lookup));
      buffer := buffer + subst;
      buffer := buffer + rest;
      i := i + 1;
    }
    assert splits[i..] == [] && buffer + "" == buffer;
    SplitRefinesScan(path, lookup);
    return buffer;
  }

  /** What the loop writes for the pieces that follow a "${". */
  function Rejoin(pieces: seq<string>, lookup: Lookup): string {
    if pieces == [] then ""
    else
      var (subst, rest) := SubstVar(pieces[0], "${", lookup);
      subst + rest + Rejoin(pieces[1..], lookup)
  }

  // ----- the proof -----

  lemma {:induction false} FindOpenInSuffix(s: string, k: nat)
    requires k <= |s| && (FindOpen(s) < 0 || k <= FindOpen(s))
    ensures FindOpen(s[k..]) == if FindOpen(s) < 0 then -1 else FindOpen(s) - k
  {
    if k == 0 {
      assert s[0..] == s;
    } else {
      assert s[1..][k - 1..] == s[k..];
      FindOpenInSuffix(s[1..], k - 1);
    }
  }

  /** A piece of the split holds exactly the text in which the scanner looks for the name. */
  lemma {:induction false} PieceHoldsName(s: string)
    ensures NameEnd(s) == FindClose(if FindOpen(s) < 0 then s else s[..FindOpen(s)])
  {
    var i := FindOpen(s);
    if |s| == 0 || i == 0 {
    } else {
      PieceHoldsName(s[1..]);
      if i > 0 {
        assert s[..i][1..] == s[1..][..i - 1];
      }
    }
  }

  /** `piece` is the text of `s` before its first "${", and `rest` begins there. */
  ghost predicate Cut(s: string, piece: string, rest: string) {
    && s == piece + rest
    && (rest == "" || Opens(rest))
    && FindOpen(s) == if rest == "" then -1 else |piece|
  }

  /** The pieces after a "${" are rejoined as the scanner reads them. */
  lemma {:induction false} TailRefinesScan(s: string, lookup: Lookup)
    ensures Rejoin(Split(s), lookup) == Scan("${" + s, lookup)
    decreases |s|
  {
    var i := FindOpen(s);
    if i < 0 {
      assert Split(s)[1..] == [];
      assert s + "" == s;
      OneVariable(s, s, "", lookup);
    } else {
      var next := s[i + 2..];
      TailRefinesScan(next, lookup);
      assert Split(s)[1..] == Split(next);
      SplitAtOpen(s, i);
      OneVariable(s, s[..i], "${" + next, lookup);
    }
  }

  /** One "${": the scanner replaces or keeps it as the piece that follows it says, and then goes
      on at the next "${". */
  lemma OneVariable(s: string, piece: string, rest: string, lookup: Lookup)
    requires Cut(s, piece, rest)
    ensures Scan("${" + s, lookup) ==
            SubstVar(piece, "${", lookup).0 + SubstVar(piece, "${", lookup).1 + Scan(rest, lookup)
  {
    NameInPiece(s, piece, rest);
    var n := NameEnd(s);
    if n >= 0 && piece[..n] in lookup {
      VariableReplaced(s, piece, rest, n, lookup);
    } else {
      VariableKept(s, piece, rest, lookup);
    }
  }

  lemma VariableReplaced(s: string, piece: string, rest: string, n: nat, lookup: Lookup)
    requires Cut(s, piece, rest) && n < |piece| && n == NameEnd(s) == FindClose(piece) && s[..n] == piece[..n] && piece[..n] in lookup
    ensures Scan("${" + s, lookup) == lookup[piece[..n]] + piece[n + 1..] + Scan(rest, lookup)
  {
    ScanAfterOpen(s, lookup);
    SuffixOfPiece(s, piece, rest, n + 1, lookup);
    Assoc(lookup[piece[..n]], piece[n + 1..], Scan(rest, lookup));
  }

  lemma VariableKept(s: string, piece: string, rest: string, lookup: Lookup)
    requires Cut(s, piece, rest) && (NameEnd(s) < 0 || s[..NameEnd(s)] !in lookup)
    ensures Scan("${" + s, lookup) == "${" + piece + Scan(rest, lookup)
  {
    ScanAfterOpen(s, lookup);
    ScanCopiesText(piece, rest, lookup);
    Assoc("${", piece, Scan(rest, lookup));
  }

  lemma NameInPiece(s: string, piece: string, rest: string)
    requires Cut(s, piece, rest)
    ensures NameEnd(s) == FindClose(piece)
    ensures NameEnd(s) >= 0 ==> s[..NameEnd(s)] == piece[..NameEnd(s)]
  {
    PieceHoldsName(s);
    assert piece == if FindOpen(s) < 0 then s else s[..FindOpen(s)];
  }

  lemma Assoc(a: string, b: string, c: string)
    ensures a + b + c == a + (b + c)
  {
  }

  lemma ScanAfterOpen(s: string, lookup: Lookup)
    ensures var n := NameEnd(s);
      Scan("${" + s, lookup) ==
        if n < 0 || s[..n] !in lookup then "${" + Scan(s, lookup)
        else lookup[s[..n]] + Scan(s[n + 1..], lookup)
  {
    assert ("${" + s)[2..] == s;
  }

  /** Text that holds no "${" is copied. */
  lemma {:induction false} ScanCopiesText(text: string, rest: string, lookup: Lookup)
    requires rest == "" || Opens(rest)
    requires FindOpen(text + rest) == if rest == "" then -1 else |text|
    ensures Scan(text + rest, lookup) == text + Scan(rest, lookup)
  {
    if text == "" {
      assert text + rest == rest;
    } else {
      TextHead(text, rest);
      ScanCopiesText(text[1..], rest, lookup);
      Assoc([text[0]], text[1..], Scan(rest, lookup));
    }
  }

  lemma TextHead(text: string, rest: string)
    requires text != "" && FindOpen(text + rest) == if rest == "" then -1 else |text|
    ensures !Opens(text + rest) && (text + rest)[0] == text[0] && (text + rest)[1..] == text[1..] + rest
    ensures FindOpen(text[1..] + rest) == if rest == "" then -1 else |text| - 1
    ensures [text[0]] + text[1..] == text
  {
    var s := text + rest;
    assert s[0] == text[0] && s[1..] == text[1..] + rest;
    assert FindOpen(s) == if Opens(s) then 0 else if FindOpen(s[1..]) < 0 then -1 else FindOpen(s[1..]) + 1;
  }

  /** Scanning from inside a piece copies the rest of it and goes on at the next "${". */
  lemma SuffixOfPiece(s: string, piece: string, rest: string, k: nat, lookup: Lookup)
    requires Cut(s, piece, rest) && k <= |piece|
    ensures Scan(s[k..], lookup) == piece[k..] + Scan(rest, lookup)
  {
    FindOpenInSuffix(s, k);
    SuffixSplits(s, piece, rest, k);
    ScanCopiesText(piece[k..], rest, lookup);
  }

  lemma SuffixSplits(s: string, piece: string, rest: string, k: nat)
    requires k <= |piece| && s == piece + rest
    ensures s[k..] == piece[k..] + rest
  {
  }

  lemma SplitAtOpen(s: string, i: nat)
    requires i + 2 <= |s| && Opens(s[i..])
    ensures s == s[..i] + ("${" + s[i + 2..])
  {
    assert s[i] == s[i..][0] && s[i + 1] == s[i..][1];
  }

  lemma SplitRefinesScan(path: string, lookup: Lookup)
    ensures Split(path)[0] + Rejoin(Split(path)[1..], lookup) == Scan(path, lookup)
  {
    var i := FindOpen(path);
    if i < 0 {
      assert path + "" == path;
      ScanCopiesText(path, "", lookup);
    } else {
      var text, next := path[..i], path[i + 2..];
      SplitAtOpen(path, i);
      ScanCopiesText(text, "${" + next, lookup);
      TailRefinesScan(next, lookup);
      assert ([text] + Split(next))[1..] == Split(next);
    }
  }

  // ----- what the scanner promises -----

  /** The "${" at the head of `s` begins a variable that is set. */
  predicate Resolves(s: string, lookup: Lookup)
    requires Opens(s)
  {
    var n := NameEnd(s[2..]);
    n >= 0 && s[2..][..n] in lookup
  }

  /** No lookup made for the path succeeds. */
  ghost predicate NothingResolves(s: string, lookup: Lookup) {
    forall i | 0 <= i <= |s| && Opens(s[i..]) :: !Resolves(s[i..], lookup)
  }

  lemma NothingResolvesAfter(s: string, k: nat, lookup: Lookup)
    requires k <= |s| && NothingResolves(s, lookup)
    ensures NothingResolves(s[k..], lookup)
  {
    forall i | 0 <= i <= |s[k..]| && Opens(s[k..][i..])
      ensures !Resolves(s[k..][i..], lookup)
    {
      assert s[k..][i..] == s[k + i..];
    }
  }

  /** When no variable of the path is set, whatever else may be, the path comes back as it was. */
  lemma {:induction false} IdentityWhenNothingResolves(s: string, lookup: Lookup)
    requires NothingResolves(s, lookup)
    ensures Scan(s, lookup) == s
    decreases |s|
  {
    if |s| == 0 {
    } else if Opens(s) {
      assert s[0..] == s && !Resolves(s, lookup);
      NothingResolvesAfter(s, 2, lookup);
      IdentityWhenNothingResolves(s[2..], lookup);
      OpenAndRest(s);
    } else {
      NothingResolvesAfter(s, 1, lookup);
      IdentityWhenNothingResolves(s[1..], lookup);
    }
  }

  lemma {:induction false} ValueIsInserted(s: string, lookup: Lookup, size: nat)
    requires !NothingResolves(s, lookup)
    requires forall n | n in lookup :: |lookup[n]| >= size
    ensures |Scan(s, lookup)| >= size
    decreases |s|
  {
    var i :| 0 <= i <= |s| && Opens(s[i..]) && Resolves(s[i..], lookup);
    if i == 0 {
      assert s[0..] == s;
    } else if !Opens(s) {
      assert s[1..][i - 1..] == s[i..];
      ValueIsInserted(s[1..], lookup, size);
    } else if !Resolves(s, lookup) {
      assert s[i] == s[i..][0] == '$' && s[1] == '{';
      assert s[2..][i - 2..] == s[i..];
      ValueIsInserted(s[2..], lookup, size);
    }
  }

  /** Given which variables are set, the path comes back for all their values iff none of its own is
      among them. */
  lemma IdentityIff(s: string, lookup: Lookup)
    ensures NothingResolves(s, lookup) <==> forall other: Lookup | other.Keys == lookup.Keys :: Scan(s, other) == s
  {
    if NothingResolves(s, lookup) {
      forall other: Lookup | other.Keys == lookup.Keys
        ensures Scan(s, other) == s
      {
        assert NothingResolves(s, other);
        IdentityWhenNothingResolves(s, other);
      }
    } else {
      var long := seq(|s| + 1, _ => '.');
      var other: Lookup := map n | n in lookup :: long;
      assert !NothingResolves(s, other) by {
        var i :| 0 <= i <= |s| && Opens(s[i..]) && Resolves(s[i..], lookup);
        assert Resolves(s[i..], other);
      }
      ValueIsInserted(s, other, |s| + 1);
      assert other.Keys == lookup.Keys;
    }
  }

  lemma {:induction false} NameEndStopsAtOpen(a: string, m: string)
    requires Opens(m)
    ensures NameEnd(a + m) == NameEnd(a)
  {
    if a == "" {
      assert a + m == m;
    } else {
      assert (a + m)[1..] == a[1..] + m;
      NameEndStopsAtOpen(a[1..], m);
    }
  }

  /** What precedes a "${" never influences what follows it. */
  lemma {:induction false} ScanCutsAtOpen(a: string, m: string, lookup: Lookup)
    requires Opens(m)
    ensures Scan(a + m, lookup) == Scan(a, lookup) + Scan(m, lookup)
    decreases |a|
  {
    if a == "" {
      assert a + m == m;
    } else if !Opens(a) {
      HeadOfSum(a, m);
      ScanCutsAtOpen(a[1..], m, lookup);
      Assoc([a[0]], Scan(a[1..], lookup), Scan(m, lookup));
    } else {
      var rest := a[2..];
      ScanAfterOpenWith(rest, m, lookup);
      var n := NameEnd(rest);
      if n < 0 || rest[..n] !in lookup {
        ScanCutsAtOpen(rest, m, lookup);
        Assoc("${", Scan(rest, lookup), Scan(m, lookup));
      } else {
        var after := rest[n + 1..];
        ScanCutsAtOpen(after, m, lookup);
        Assoc(lookup[rest[..n]], Scan(after, lookup), Scan(m, lookup));
      }
      OpenAndRest(a);
      ScanAfterOpen(rest, lookup);
    }
  }

  lemma HeadOfSum(a: string, m: string)
    requires a != "" && !Opens(a) && Opens(m)
    ensures !Opens(a + m) && (a + m)[0] == a[0] && (a + m)[1..] == a[1..] + m
  {
  }

  lemma OpenAndRest(a: string)
    requires Opens(a)
    ensures a == "${" + a[2..]
  {
  }

  lemma ScanAfterOpenWith(rest: string, m: string, lookup: Lookup)
    requires Opens(m)
    ensures var n := NameEnd(rest);
      Scan("${" + rest + m, lookup) ==
        if n < 0 || rest[..n] !in lookup then "${" + Scan(rest + m, lookup)
        else lookup[rest[..n]] + Scan(rest[n + 1..] + m, lookup)
  {
    Assoc("${", rest, m);
    ScanAfterOpen(rest + m, lookup);
    NameEndStopsAtOpen(rest, m);
    var n := NameEnd(rest);
    if n >= 0 {
      SlicesOfSum(rest, m, n);
    }
  }

  lemma SlicesOfSum(a: string, m: string, n: nat)
    requires n < |a|
    ensures (a + m)[..n] == a[..n] && (a + m)[n + 1..] == a[n + 1..] + m
  {
  }

  lemma {:induction false} NameEndOfName(name: string, post: string)
    requires FindClose(name) < 0 && FindOpen(name) < 0
    ensures NameEnd(name + "}" + post) == |name|
  {
    var s := name + "}" + post;
    if name != "" {
      assert s[1..] == name[1..] + "}" + post;
      NameEndOfName(name[1..], post);
    }
  }

  lemma Regroup(pre: string, name: string, post: string)
    ensures pre + "${" + name + "}" + post == pre + ("${" + (name + "}" + post))
  {
  }

  lemma NameSlices(name: string, post: string)
    ensures (name + "}" + post)[..|name|] == name && (name + "}" + post)[|name| + 1..] == post
  {
  }

  /** A resolved variable is replaced wherever it stands, and its value is inserted as it is: not
      even a value that holds "${" or ends in "$" is looked at again. */
  lemma ValuesAreNotRescanned(pre: string, name: string, post: string, lookup: Lookup)
    requires FindClose(name) < 0 && FindOpen(name) < 0 && name in lookup
    ensures Scan(pre + "${" + name + "}" + post, lookup) == Scan(pre, lookup) + lookup[name] + Scan(post, lookup)
  {
    var s := name + "}" + post;
    var m := "${" + s;
    Regroup(pre, name, post);
    ScanCutsAtOpen(pre, m, lookup);
    NameEndOfName(name, post);
    ScanAfterOpen(s, lookup);
    NameSlices(name, post);
    Assoc(Scan(pre, lookup), lookup[name], Scan(post, lookup));
  }
}
