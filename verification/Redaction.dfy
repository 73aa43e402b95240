/** Public-evidence redaction: scripts/public_redaction.py. */
module Redaction {
  import opened Search
  import opened PythonText

  const REPLACEMENT := "<redacted-path>"
  const MAX_LENGTH: nat := 2000

  const SENSITIVE_KEYS: set<string> := {
    "atm_home", "current_dir", "daemon_pid", "doctor", "endpoint", "home_dir", "path", "peer_host", "release",
    "worktree_path"}

  // ---------------------------------------------------------------- the path pattern

  /** `[\s,;]` */
  predicate IsSeparator(c: char) { IsSpace(c) || c == ',' || c == ';' }

  predicate IsLetter(c: char) { 'A' <= c <= 'Z' || 'a' <= c <= 'z' }

  predicate StartsWith(s: string, prefix: string) { prefix <= s }

  /** Length of the root that opens a path at the front of `s`; 0 if there is none. */
  function RootLength(s: string): (n: nat)
    ensures n <= |s|
  {
    if StartsWith(s, "/Users/") then 7
    else if StartsWith(s, "/home/") then 6
    else if StartsWith(s, "/private/tmp/") || StartsWith(s, "/private/var/") then 13
    else if StartsWith(s, "/tmp/") then 5
    else if |s| >= 3 && IsLetter(s[0]) && s[1] == ':' && s[2] == '\\' then 3
    else 0
  }

  /** How many leading characters are not separators. */
  function RunLength(s: string): (n: nat)
    ensures n <= |s|
    ensures forall i :: 0 <= i < n ==> !IsSeparator(s[i])
    ensures n < |s| ==> IsSeparator(s[n])
  {
    if s == "" || IsSeparator(s[0]) then 0 else 1 + RunLength(s[1..])
  }

  /** Length of the greedy match at the front of `s`; 0 for no match. */
  function MatchLength(s: string): (n: nat)
    ensures n <= |s|
  {
    var root := RootLength(s);
    if root == 0 || RunLength(s[root..]) == 0 then 0 else root + RunLength(s[root..])
  }

  // ---------------------------------------------------------------- what the pattern means

  /** The literal roots of the pattern; a drive letter with `:\\` is the remaining one. */
  const ROOTS: set<string> := {"/Users/", "/home/", "/private/tmp/", "/private/var/", "/tmp/"}

  predicate IsDrive(r: string) {
    |r| == 3 && ('A' <= r[0] <= 'Z' || 'a' <= r[0] <= 'z') && r[1] == ':' && r[2] == '\\'
  }

  /** `q` is a root followed by at least one character, none of them white space, comma or semicolon. */
  ghost predicate IsPathText(q: string) {
    exists n :: 0 < n < |q| && (q[..n] in ROOTS || IsDrive(q[..n])) && Unbroken(q, n)
  }

  predicate Unbroken(q: string, n: nat) {
    forall i :: n <= i < |q| ==> !IsSpace(q[i]) && q[i] != ',' && q[i] != ';'
  }

  lemma UnbrokenMeans(q: string, n: nat)
    ensures Unbroken(q, n) <==> forall i :: n <= i < |q| ==> !IsSeparator(q[i])
  {
  }

  lemma RootIsLiteral(s: string)
    ensures RootLength(s) > 0 ==> s[..RootLength(s)] in ROOTS || IsDrive(s[..RootLength(s)])
  {
    if StartsWith(s, "/Users/") {
      assert s[..7] == "/Users/";
    } else if StartsWith(s, "/home/") {
      assert s[..6] == "/home/";
    } else if StartsWith(s, "/private/tmp/") {
      assert s[..13] == "/private/tmp/";
    } else if StartsWith(s, "/private/var/") {
      assert s[..13] == "/private/var/";
    } else if StartsWith(s, "/tmp/") {
      assert s[..5] == "/tmp/";
    }
  }

  lemma LiteralIsRoot(s: string, n: nat)
    requires 0 < n <= |s| && (s[..n] in ROOTS || IsDrive(s[..n]))
    ensures RootLength(s) == n
  {
    RootsExclusive(s);
    var r := s[..n];
    assert r in ROOTS ==> StartsWith(s, r);
    if IsDrive(r) { assert s[0] == r[0] && s[1] == r[1] && s[2] == r[2]; }
  }

  lemma MatchIsPath(s: string)
    ensures MatchLength(s) > 0 ==> IsPathText(s[..MatchLength(s)])
  {
    hide RootLength, IsSeparator, IsDrive;
    var m := MatchLength(s);
    if m > 0 {
      RootIsLiteral(s);
      var root := RootLength(s);
      assert s[..m][..root] == s[..root];
      forall i | root <= i < m ensures !IsSeparator(s[..m][i]) { assert s[..m][i] == s[root..][i - root]; }
      UnbrokenMeans(s[..m], root);
    }
  }

  /** The matcher finds a path at the front exactly when one is there, and takes the longest. */
  lemma MatchIsLongestPath(s: string, n: nat)
    requires n <= |s|
    ensures MatchLength(s) > 0 ==> IsPathText(s[..MatchLength(s)])
    ensures IsPathText(s[..n]) ==> 0 < n <= MatchLength(s)
  {
    MatchIsPath(s);
    hide RootLength, IsSeparator, IsDrive, RunLength;
    if IsPathText(s[..n]) {
      var q := s[..n];
      var k :| 0 < k < |q| && (q[..k] in ROOTS || IsDrive(q[..k])) && Unbroken(q, k);
      assert q[..k] == s[..k];
      LiteralIsRoot(s, k);
      UnbrokenMeans(q, k);
      assert forall i :: 0 <= i < n - k ==> s[k..][i] == q[k + i];
      RunAtLeast(s[k..], n - k);
    }
  }

  lemma RunAtLeast(s: string, n: nat)
    requires n <= |s|
    ensures (forall i :: 0 <= i < n ==> !IsSeparator(s[i])) ==> n <= RunLength(s)
  {
  }

  // ---------------------------------------------------------------- substitution

  datatype Piece = Kept(c: char) | Path(text: string)

  /** Leftmost, greedy scan: the text cut into kept characters and matched paths. */
  function Scan(s: string): seq<Piece>
    decreases |s|
  {
    if s == "" then []
    else
      var n := MatchLength(s);
      if n > 0 then [Path(s[..n])] + Scan(s[n..]) else [Kept(s[0])] + Scan(s[1..])
  }

  function Original(pieces: seq<Piece>): string {
    if pieces == [] then ""
    else (match pieces[0] case Kept(c) => [c] case Path(text) => text) + Original(pieces[1..])
  }

  function Public(pieces: seq<Piece>): string {
    if pieces == [] then ""
    else (match pieces[0] case Kept(c) => [c] case Path(_) => REPLACEMENT) + Public(pieces[1..])
  }

  /** `ABSOLUTE_PATH.sub("<redacted-path>", s)` */
  function Redact(s: string): string { Public(Scan(s)) }

  /** `public_string` */
  function PublicString(s: string): (r: string)
    ensures |r| <= MAX_LENGTH
  {
    var r := Redact(s);
    if |r| > MAX_LENGTH then r[..MAX_LENGTH] else r
  }

  // ---------------------------------------------------------------- what redaction keeps

  /** Only whole matched paths are replaced; every other character survives in place. */
  lemma {:induction false} ScanCoversText(s: string)
    ensures Original(Scan(s)) == s
    ensures forall i :: 0 <= i < |Scan(s)| ==> WholeMatch(Scan(s)[i])
    decreases |s|
  {
    hide MatchLength;
    if s == "" {
    } else {
      var n := MatchLength(s);
      var m := if n > 0 then n else 1;
      ScanCoversText(s[m..]);
      if n > 0 { MatchOfMatch(s); }
      assert Scan(s) == [if n > 0 then Path(s[..n]) else Kept(s[0])] + Scan(s[m..]);
      assert Scan(s)[1..] == Scan(s[m..]);
      assert s == s[..m] + s[m..];
    }
  }

  predicate WholeMatch(p: Piece) { p.Path? ==> p.text != "" && MatchLength(p.text) == |p.text| }

  lemma PrefixStarts(s: string, n: nat, prefix: string)
    requires n <= |s|
    ensures StartsWith(s[..n], prefix) <==> |prefix| <= n && StartsWith(s, prefix)
  {
    if |prefix| <= n { assert s[..n][..|prefix|] == s[..|prefix|]; }
  }

  /** Cutting text cannot create a match, only shorten or lose one. */
  lemma RootOfPrefix(s: string, n: nat)
    requires n <= |s|
    ensures RootLength(s[..n]) == if RootLength(s) <= n then RootLength(s) else 0
  {
    PrefixStarts(s, n, "/Users/");
    PrefixStarts(s, n, "/home/");
    PrefixStarts(s, n, "/private/tmp/");
    PrefixStarts(s, n, "/private/var/");
    PrefixStarts(s, n, "/tmp/");
    RootsExclusive(s);
  }

  /** At most one root opens a text, so a lost long root does not uncover a shorter one. */
  lemma RootsExclusive(s: string)
    ensures StartsWith(s, "/Users/") ==> |s| >= 7 && s[1] == 'U' && s[0] == '/'
    ensures StartsWith(s, "/home/") ==> |s| >= 6 && s[1] == 'h' && s[0] == '/'
    ensures StartsWith(s, "/private/tmp/") || StartsWith(s, "/private/var/") ==> |s| >= 13 && s[1] == 'p' && s[0] == '/'
    ensures StartsWith(s, "/tmp/") ==> |s| >= 5 && s[1] == 't' && s[0] == '/'
  {
  }

  lemma RunOfPrefix(s: string, n: nat)
    requires n <= |s|
    ensures RunLength(s[..n]) == if RunLength(s) <= n then RunLength(s) else n
    decreases |s|
  {
    hide IsSeparator, RunLength;
    var a, b := RunLength(s), RunLength(s[..n]);
    assert forall i :: 0 <= i < n ==> s[..n][i] == s[i];
    assert b < n ==> IsSeparator(s[b]);
    assert a < n ==> IsSeparator(s[a]);
    assert b < a ==> !IsSeparator(s[b]);
    assert forall i :: 0 <= i < b ==> !IsSeparator(s[i]);
  }

  lemma MatchOfMatch(s: string)
    requires MatchLength(s) > 0
    ensures MatchLength(s[..MatchLength(s)]) == MatchLength(s)
  {
    hide RootLength;
    var root, n := RootLength(s), MatchLength(s);
    RootOfPrefix(s, n);
    assert s[..n][root..] == s[root..][..n - root];
    RunOfPrefix(s[root..], n - root);
  }

  // ---------------------------------------------------------------- nothing is left

  /** No path match starts anywhere. */
  predicate PathFree(s: string) { forall i :: 0 <= i <= |s| ==> MatchLength(s[i..]) == 0 }

  /** Being free of matches is holding no path anywhere inside. */
  lemma PathFreeMeans(s: string)
    ensures PathFree(s) <==> forall i, j :: 0 <= i <= j <= |s| ==> !IsPathText(s[i..j])
  {
    hide MatchLength, IsPathText;
    forall i, j | 0 <= i <= j <= |s| ensures IsPathText(s[i..j]) ==> MatchLength(s[i..]) > 0 {
      assert s[i..j] == s[i..][..j - i];
      MatchIsLongestPath(s[i..], j - i);
    }
    forall i | 0 <= i <= |s| && MatchLength(s[i..]) > 0 ensures IsPathText(s[i..i + MatchLength(s[i..])]) {
      var m := MatchLength(s[i..]);
      assert s[i..i + m] == s[i..][..m];
      MatchIsLongestPath(s[i..], m);
    }
  }

  lemma {:induction false} PathFreeScan(s: string)
    requires PathFree(s)
    ensures Redact(s) == s
    decreases |s|
  {
    if s == "" {
    } else {
      assert s[0..] == s;
      assert PathFree(s[1..]) by {
        forall i | 0 <= i <= |s| - 1 ensures MatchLength(s[1..][i..]) == 0 { assert s[1..][i..] == s[i + 1..]; }
      }
      PathFreeScan(s[1..]);
      assert Scan(s)[1..] == Scan(s[1..]);
    }
  }

  lemma PathFreePrefix(s: string, n: nat)
    requires PathFree(s) && n <= |s|
    ensures PathFree(s[..n])
  {
    hide MatchLength;
    forall i | 0 <= i <= n ensures MatchLength(s[..n][i..]) == 0 {
      var t := s[i..];
      assert MatchLength(t) == 0;
      assert s[..n][i..] == t[..n - i];
      NoMatchInPrefix(t, n - i);
    }
  }

  lemma NoMatchInPrefix(t: string, n: nat)
    requires n <= |t| && MatchLength(t) == 0
    ensures MatchLength(t[..n]) == 0
  {
    hide RootLength;
    RootOfPrefix(t, n);
    var root := RootLength(t);
    if 0 < root <= n {
      assert t[..n][root..] == t[root..][..n - root];
      RunOfPrefix(t[root..], n - root);
    }
  }

  /** How many characters stand before the first match. */
  function KeptLength(s: string): (k: nat)
    ensures k <= |s|
  {
    if s == "" || MatchLength(s) > 0 then 0 else 1 + KeptLength(s[1..])
  }

  /** Redaction leaves the text before the first match alone, then writes a bracket. */
  lemma {:induction false} RedactFront(s: string)
    ensures var k, r := KeptLength(s), Redact(s);
            && k <= |r| && r[..k] == s[..k]
            && (k == |s| ==> r == s)
            && (k < |s| ==> k < |r| && r[k] == '<' && MatchLength(s[k..]) > 0)
    decreases |s|
  {
    hide MatchLength, Redact;
    if s == "" {
      assert Redact("") == "" by { RedactEmpty(); }
    } else if MatchLength(s) == 0 {
      var t := s[1..];
      RedactFront(t);
      RedactKept(s);
      var k := KeptLength(t);
      assert s[..k + 1] == [s[0]] + t[..k] && t[k..] == s[k + 1..];
    } else {
      RedactMatched(s);
      assert s[0..] == s;
    }
  }

  lemma RedactEmpty()
    ensures Redact("") == ""
  {
  }

  lemma RedactKept(s: string)
    requires s != "" && MatchLength(s) == 0
    ensures Redact(s) == [s[0]] + Redact(s[1..])
  {
    hide MatchLength;
    assert Scan(s)[1..] == Scan(s[1..]);
  }

  lemma RedactMatched(s: string)
    requires s != "" && MatchLength(s) > 0
    ensures Redact(s) == REPLACEMENT + Redact(s[MatchLength(s)..])
  {
    hide MatchLength;
    assert Scan(s)[1..] == Scan(s[MatchLength(s)..]);
  }

  /** A root opens with a slash or a drive letter and holds no bracket. */
  lemma RootCharacters(s: string)
    ensures RootLength(s) > 0 ==> s[0] == '/' || (|s| >= 3 && IsLetter(s[0]) && s[1] == ':')
    ensures forall i :: 0 <= i < RootLength(s) ==> s[i] != '<'
  {
  }

  lemma MatchOpens(s: string)
    requires MatchLength(s) > 0
    ensures !IsSeparator(s[0])
  {
    hide RootLength;
    RootCharacters(s);
  }

  /** The root seen in redacted text was already the root of the original text. */
  lemma RootSurvives(s: string, r: string, k: nat)
    requires k <= |s| && k <= |r| && r[..k] == s[..k] && 0 < RootLength(r) <= k
    ensures RootLength(s) == RootLength(r)
  {
    hide RootLength;
    RootOfPrefix(s, k);
    RootOfPrefix(r, k);
  }

  /** Redaction does not create a match at the front. */
  lemma FrontStaysFree(s: string)
    requires MatchLength(s) == 0
    ensures MatchLength(Redact(s)) == 0
  {
    hide RootLength, Redact, KeptLength;
    var k, r := KeptLength(s), Redact(s);
    RedactFront(s);
    RootCharacters(r);
    var root := RootLength(r);
    if k < |s| && 0 < root {
      assert root <= k;
      RootSurvives(s, r, k);
      MatchOpens(s[k..]);
      assert RunLength(s[root..]) == 0;
      assert s[root..][0] == s[root] && s[k..][0] == s[k];
      assert root < k && r[root] == r[..k][root] == s[..k][root] == s[root];
      assert r[root..][0] == r[root];
    }
  }

  /** No match starts inside the replacement text. */
  lemma ReplacementIsFree(i: nat, rest: string)
    requires i < |REPLACEMENT| && (rest == "" || IsSeparator(rest[0]))
    ensures MatchLength((REPLACEMENT + rest)[i..]) == 0
  {
    hide RootLength, IsSeparator;
    var t := (REPLACEMENT + rest)[i..];
    RootCharacters(t);
    assert t[0] == REPLACEMENT[i] && REPLACEMENT[i] != '/';
    if i + 1 < |REPLACEMENT| { assert t[1] == REPLACEMENT[i + 1] != ':'; } else { assert t[0] == '>'; }
  }

  lemma PathFreeConcat(a: string, b: string)
    requires PathFree(b) && forall i :: 0 <= i < |a| ==> MatchLength((a + b)[i..]) == 0
    ensures PathFree(a + b)
  {
    hide MatchLength;
    forall i | 0 <= i <= |a + b| ensures MatchLength((a + b)[i..]) == 0 {
      if i >= |a| {
        assert (a + b)[i..] == b[i - |a|..];
        assert MatchLength(b[i - |a|..]) == 0;
      }
    }
  }

  /** What follows a match is the end of the text or a separator, which redaction keeps. */
  lemma AfterMatch(s: string)
    requires MatchLength(s) > 0
    ensures var rest := s[MatchLength(s)..];
            Redact(rest) == "" || IsSeparator(Redact(rest)[0])
  {
    hide RootLength;
    var n, root := MatchLength(s), RootLength(s);
    var rest := s[n..];
    if rest != "" {
      assert rest[0] == s[root..][n - root];
      if MatchLength(rest) > 0 { MatchOpens(rest); } else { RedactKept(rest); }
    }
  }

  /** No path is left anywhere in redacted text. */
  lemma {:induction false} RedactionIsComplete(s: string)
    ensures PathFree(Redact(s))
    decreases |s|
  {
    hide MatchLength, PathFree, Redact, IsSeparator;
    if s == "" {
      EmptyIsFree();
    } else if MatchLength(s) > 0 {
      var rest := s[MatchLength(s)..];
      RedactionIsComplete(rest);
      RedactMatched(s);
      AfterMatch(s);
      forall i | 0 <= i < |REPLACEMENT| ensures MatchLength((REPLACEMENT + Redact(rest))[i..]) == 0 {
        ReplacementIsFree(i, Redact(rest));
      }
      PathFreeConcat(REPLACEMENT, Redact(rest));
    } else {
      RedactionIsComplete(s[1..]);
      RedactKept(s);
      FrontStaysFree(s);
      assert Redact(s)[0..] == Redact(s);
      PathFreeConcat([s[0]], Redact(s[1..]));
    }
  }

  lemma EmptyIsFree()
    ensures PathFree(Redact(""))
  {
  }

  /** `public_string` leaves no path and is its own fixed point, also where the cut falls. */
  lemma PublicStringIsClean(s: string)
    ensures PathFree(PublicString(s))
    ensures PublicString(PublicString(s)) == PublicString(s)
  {
    hide PathFree, Redact;
    RedactionIsComplete(s);
    if |Redact(s)| > MAX_LENGTH { PathFreePrefix(Redact(s), MAX_LENGTH); }
    PathFreeScan(PublicString(s));
  }

  /** A string is published as it stands exactly when it is short and free of paths. */
  lemma PublicStringFixedPoint(s: string)
    ensures PublicString(s) == s <==> |s| <= MAX_LENGTH && PathFree(s)
  {
    hide PathFree, Redact;
    PublicStringIsClean(s);
    if |s| <= MAX_LENGTH && PathFree(s) { PathFreeScan(s); }
  }

  /** Redacted text is all there, up to the first 2000 characters. */
  lemma PublicStringIsPrefix(s: string)
    ensures PublicString(s) <= Redact(s)
    ensures |PublicString(s)| == if |Redact(s)| < 2000 then |Redact(s)| else 2000
  {
    hide Redact;
  }

  lemma {:induction false} RedactBeforeMatch(s: string, i: nat)
    requires i <= |s| && forall k :: 0 <= k < i ==> MatchLength(s[k..]) == 0
    ensures Redact(s) == s[..i] + Redact(s[i..])
    decreases i
  {
    hide MatchLength, Redact;
    if i == 0 {
      assert s[0..] == s && s[..0] == [];
    } else {
      assert s[0..] == s;
      RedactKept(s);
      var t := s[1..];
      forall k | 0 <= k < i - 1 ensures MatchLength(t[k..]) == 0 { assert t[k..] == s[k + 1..]; }
      RedactBeforeMatch(t, i - 1);
      assert t[i - 1..] == s[i..] && s[..i] == [s[0]] + t[..i - 1];
    }
  }

  /** The first path of a text, up to the end of the text or the next separator, becomes one
      replacement; the text before it stays, and the text after it is redacted in turn. With
      `PublicStringFixedPoint` for text without paths this says all about redaction. */
  lemma RedactEquation(s: string, i: nat, j: nat)
    requires i <= j <= |s| && IsPathText(s[i..j]) && (j == |s| || IsSeparator(s[j]))
    requires forall a, b :: 0 <= a < i && a <= b <= |s| ==> !IsPathText(s[a..b])
    ensures Redact(s) == s[..i] + "<redacted-path>" + Redact(s[j..])
  {
    hide IsPathText, MatchLength, Redact, IsSeparator;
    forall k | 0 <= k < i ensures MatchLength(s[k..]) == 0 {
      var m := MatchLength(s[k..]);
      MatchIsLongestPath(s[k..], m);
      assert s[k..][..m] == s[k..k + m];
    }
    RedactBeforeMatch(s, i);
    var t := s[i..];
    assert t[..j - i] == s[i..j] && t[j - i..] == s[j..];
    WholePathMatches(t, j - i);
    assert t != "" by { assert MatchLength(t) > 0; }
    RedactMatched(t);
    assert s[..i] + (REPLACEMENT + Redact(s[j..])) == s[..i] + REPLACEMENT + Redact(s[j..]);
  }

  /** A path that ends with the text or before a separator is matched to its end. */
  lemma WholePathMatches(s: string, n: nat)
    requires n <= |s| && IsPathText(s[..n]) && (n == |s| || IsSeparator(s[n]))
    ensures MatchLength(s) == n > 0
  {
    MatchIsLongestPath(s, n);
    hide IsPathText, RootLength, IsSeparator;
    RootIsShort(s, n);
    var root := RootLength(s);
    assert n < |s| ==> s[root..][n - root] == s[n];
  }

  lemma RootIsShort(s: string, n: nat)
    requires n <= |s| && IsPathText(s[..n])
    ensures 0 < RootLength(s) < n
  {
    hide RootLength, IsSeparator, IsDrive;
    var q := s[..n];
    var k :| 0 < k < |q| && (q[..k] in ROOTS || IsDrive(q[..k])) && Unbroken(q, k);
    assert q[..k] == s[..k];
    LiteralIsRoot(s, k);
  }

  // ---------------------------------------------------------------- nested values

  /** JSON-like evidence; `Other` is any further object with its string form. */
  datatype Value =
    | Text(s: string)
    | Scalar(repr: string)                  // int, float, bool, None
    | List(items: seq<Value>)
    | Dict(fields: map<string, Value>)
    | Other(repr: string)

  /** `public_value` */
  function PublicValue(v: Value): Value {
    match v
    case Text(s) => Text(PublicString(s))
    case Scalar(_) => v
    case List(items) => List(seq(|items|, i requires 0 <= i < |items| => PublicValue(items[i])))
    case Dict(fields) => Dict(map k | k in fields && k !in SENSITIVE_KEYS :: PublicValue(fields[k]))
    case Other(repr) => Text(PublicString(repr))
  }

  /** Safe to publish: short path-free strings, no sensitive key at any depth. */
  predicate IsPublic(v: Value) {
    match v
    case Text(s) => |s| <= MAX_LENGTH && PathFree(s)
    case Scalar(_) => true
    case List(items) => forall i :: 0 <= i < |items| ==> IsPublic(items[i])
    case Dict(fields) => forall k :: k in fields ==> k !in SENSITIVE_KEYS && IsPublic(fields[k])
    case Other(_) => false
  }

  /** Whatever goes in, what comes out is safe to publish. */
  lemma {:induction false} PublicValueIsPublic(v: Value)
    ensures IsPublic(PublicValue(v))
    decreases v
  {
    hide PathFree, PublicString;
    match v
    case Text(s) => PublicStringIsClean(s);
    case Scalar(_) =>
    case List(items) =>
      forall i | 0 <= i < |items| ensures IsPublic(PublicValue(items[i])) { PublicValueIsPublic(items[i]); }
    case Dict(fields) =>
      forall k | k in fields ensures IsPublic(PublicValue(fields[k])) { PublicValueIsPublic(fields[k]); }
    case Other(repr) => PublicStringIsClean(repr);
  }

  /** Redaction changes nothing exactly when the value is already safe. */
  lemma {:induction false} PublicValueFixedPoint(v: Value)
    ensures PublicValue(v) == v <==> IsPublic(v)
    decreases v
  {
    hide PathFree, PublicString;
    if PublicValue(v) == v { PublicValueIsPublic(v); }
    match v
    case Text(s) => PublicStringFixedPoint(s);
    case Scalar(_) =>
    case List(items) =>
      if IsPublic(v) {
        forall i | 0 <= i < |items| ensures PublicValue(items[i]) == items[i] { PublicValueFixedPoint(items[i]); }
        assert PublicValue(v).items == items;
      }
    case Dict(fields) =>
      if IsPublic(v) {
        forall k | k in fields ensures PublicValue(fields[k]) == fields[k] { PublicValueFixedPoint(fields[k]); }
        assert PublicValue(v).fields == fields;
      }
    case Other(_) =>
  }

  /** Redacting twice is redacting once. */
  lemma PublicValueIdempotent(v: Value)
    ensures PublicValue(PublicValue(v)) == PublicValue(v)
  {
    hide PublicValue, IsPublic;
    PublicValueIsPublic(v);
    PublicValueFixedPoint(PublicValue(v));
  }

  // ---------------------------------------------------------------- structure

  datatype Step = Index(i: nat) | Key(k: string)

  /** The value reached by following indices and keys. */
  function At(v: Value, steps: seq<Step>): Option<Value> {
    if steps == [] then Some(v)
    else
      match steps[0]
      case Index(i) => if v.List? && i < |v.items| then At(v.items[i], steps[1..]) else None
      case Key(k) => if v.Dict? && k in v.fields then At(v.fields[k], steps[1..]) else None
  }

  /** No sensitive key on the way. */
  predicate Allowed(steps: seq<Step>) {
    forall n :: 0 <= n < |steps| && steps[n].Key? ==> steps[n].k !in SENSITIVE_KEYS
  }

  /** Publication keeps every value in its place, redacted, unless a sensitive key leads to it, and
      adds nothing. */
  lemma {:induction false} PublishedInPlace(v: Value, steps: seq<Step>)
    ensures At(PublicValue(v), steps) ==
            if At(v, steps).Some? && Allowed(steps) then Some(PublicValue(At(v, steps).value)) else None
    decreases steps
  {
    hide PublicString, SENSITIVE_KEYS;
    if steps != [] {
      var rest := steps[1..];
      assert Allowed(steps) <==> (steps[0].Key? ==> steps[0].k !in SENSITIVE_KEYS) && Allowed(rest) by {
        AllowedStep(steps);
      }
      match steps[0]
      case Index(i) => if v.List? && i < |v.items| { PublishedInPlace(v.items[i], rest); }
      case Key(k) => if v.Dict? && k in v.fields { PublishedInPlace(v.fields[k], rest); }
    }
  }

  lemma AllowedStep(steps: seq<Step>)
    requires steps != []
    ensures Allowed(steps) <==> (steps[0].Key? ==> steps[0].k !in SENSITIVE_KEYS) && Allowed(steps[1..])
  {
    hide SENSITIVE_KEYS;
    var rest := steps[1..];
    if Allowed(rest) && (steps[0].Key? ==> steps[0].k !in SENSITIVE_KEYS) {
      forall n | 0 <= n < |steps| && steps[n].Key? ensures steps[n].k !in SENSITIVE_KEYS {
        if n > 0 { assert rest[n - 1] == steps[n]; }
      }
    }
    if Allowed(steps) {
      forall n | 0 <= n < |rest| && rest[n].Key? ensures rest[n].k !in SENSITIVE_KEYS {
        assert rest[n] == steps[n + 1];
      }
    }
  }

  /** The leaves: text is redacted and cut, scalars stay as they are, and any other object is
      published as its redacted text. */
  lemma PublishedLeaf(v: Value, steps: seq<Step>)
    requires Allowed(steps) && At(v, steps).Some?
    ensures var leaf, out := At(v, steps).value, At(PublicValue(v), steps);
            && (leaf.Text? ==> out == Some(Text(PublicString(leaf.s))))
            && (leaf.Scalar? ==> out == Some(leaf))
            && (leaf.Other? ==> out == Some(Text(PublicString(leaf.repr))))
  {
    hide PublicString;
    PublishedInPlace(v, steps);
  }

  // ---------------------------------------------------------------- keys

  /** No key at any depth holds a path. */
  predicate KeysPathFree(v: Value) {
    match v
    case List(items) => forall i :: 0 <= i < |items| ==> KeysPathFree(items[i])
    case Dict(fields) => forall k :: k in fields ==> PathFree(k) && KeysPathFree(fields[k])
    case _ => true
  }

  /** Every key that survives the sensitive-key filter, at any depth, is free of paths. */
  predicate RetainedKeysPathFree(v: Value) {
    match v
    case List(items) => forall i :: 0 <= i < |items| ==> RetainedKeysPathFree(items[i])
    case Dict(fields) =>
      forall k :: k in fields && k !in SENSITIVE_KEYS ==> PathFree(k) && RetainedKeysPathFree(fields[k])
    case _ => true
  }

  /** Keys are filtered but never rewritten: the published value has a path in some key exactly
      when a retained key of the input has one. */
  lemma {:induction false} KeysAreNotRewritten(v: Value)
    ensures KeysPathFree(PublicValue(v)) <==> RetainedKeysPathFree(v)
    decreases v
  {
    hide PathFree, PublicString;
    match v
    case List(items) =>
      forall i | 0 <= i < |items| ensures KeysPathFree(PublicValue(items[i])) <==> RetainedKeysPathFree(items[i]) {
        KeysAreNotRewritten(items[i]);
      }
      assert forall i :: 0 <= i < |items| ==> PublicValue(v).items[i] == PublicValue(items[i]);
    case Dict(fields) =>
      forall k | k in fields ensures KeysPathFree(PublicValue(fields[k])) <==> RetainedKeysPathFree(fields[k]) {
        KeysAreNotRewritten(fields[k]);
      }
      var out := PublicValue(v).fields;
      assert forall k :: k in out <==> k in fields && k !in SENSITIVE_KEYS;
      if KeysPathFree(PublicValue(v)) {
        forall k | k in fields && k !in SENSITIVE_KEYS ensures PathFree(k) && RetainedKeysPathFree(fields[k]) {
          assert k in out;
        }
      }
    case _ =>
  }

  lemma TemporaryPathMatches(name: string)
    requires name != "" && !IsSeparator(name[0])
    ensures !PathFree("/tmp/" + name) && "/tmp/" + name !in SENSITIVE_KEYS
  {
    var key := "/tmp/" + name;
    assert key[0] == '/' && forall k :: k in SENSITIVE_KEYS ==> k[0] != '/';
    var q := key[..6];
    assert q[..5] == "/tmp/" && q[..5] in ROOTS && q[5] == name[0];
    assert IsPathText(q);
    hide RootLength, MatchLength, IsSeparator, IsPathText;
    MatchIsLongestPath(key, 6);
    assert key[0..] == key;
  }

  /** So a path in a key does get out: whatever is filed under `/tmp/...` is published under it. */
  lemma PathInKeyIsPublished(name: string, v: Value)
    requires name != "" && !IsSeparator(name[0])
    ensures var key := "/tmp/" + name;
            var out := PublicValue(Dict(map[key := v]));
            && out == Dict(map[key := PublicValue(v)]) && !PathFree(key) && !KeysPathFree(out)
  {
    hide PathFree, SENSITIVE_KEYS;
    var key := "/tmp/" + name;
    TemporaryPathMatches(name);
    var out := PublicValue(Dict(map[key := v]));
    assert out.fields == map[key := PublicValue(v)];
  }
}
