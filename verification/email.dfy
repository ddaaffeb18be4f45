/** The e-mail check of the contact form: the regular expression
    `^[^\s@]+@[^\s@]+\.[^\s@]+$`, stated three ways and proved to agree.

    - `MatchesPattern` is the structural reading: local part, `@`, domain,
      `.`, top-level part, each a non-empty run of characters that are
      neither `@` nor whitespace.
    - `EmailOk` is a character-level characterisation: an `@` at some
      position `k > 0`, every other character plain, and a `.` strictly
      inside the part after the `@`.
    - `ScanEmail` is a one-pass scanner driven by a deterministic automaton
      for the same language. The browser's engine backtracks instead, but
      it accepts exactly the same strings.
 */
module Email {

  /** The characters JavaScript's `\s` class matches: the ASCII blanks and
      the Unicode space separators and line terminators. */
  predicate IsSpace(c: char) {
    || c == ' ' || c == '\t' || c == '\n' || c == '\r'
    || c == '\U{000B}' || c == '\U{000C}' || c == '\U{00A0}' || c == '\U{1680}'
    || ('\U{2000}' <= c <= '\U{200A}')
    || c == '\U{2028}' || c == '\U{2029}' || c == '\U{202F}' || c == '\U{205F}'
    || c == '\U{3000}' || c == '\U{FEFF}'
  }

  /** A character of the class `[^\s@]`. */
  predicate Plain(c: char) {
    c != '@' && !IsSpace(c)
  }

  predicate AllPlain(s: string) {
    forall i | 0 <= i < |s| :: Plain(s[i])
  }

  /** A string matched by `[^\s@]+`. */
  predicate PlainRun(s: string) {
    |s| > 0 && AllPlain(s)
  }

  /** The address assembled from its three parts. */
  function Compose(local: string, domain: string, tld: string): (e: string)
    ensures |e| == |local| + |domain| + |tld| + 2
    ensures e[|local|] == '@' && e[|local| + 1 + |domain|] == '.'
  {
    local + "@" + domain + "." + tld
  }

  /** Structural reading of the regular expression. Because `[^\s@]` admits
      `.`, the domain and the top-level part may themselves hold dots, so
      `a@b.c.d` matches (with domain `b` or `b.c`). */
  ghost predicate MatchesPattern(e: string) {
    exists local: string, domain: string, tld: string
      :: PlainRun(local) && PlainRun(domain) && PlainRun(tld)
         && e == Compose(local, domain, tld)
  }

  /** What may follow the `@`: plain characters with a `.` neither first
      nor last. */
  predicate DomainOk(r: string) {
    AllPlain(r) && exists j | 0 < j < |r| - 1 :: r[j] == '.'
  }

  /** Character-level characterisation of a valid address. */
  predicate EmailOk(e: string) {
    exists k | 0 < k < |e| :: e[k] == '@' && AllPlain(e[..k]) && DomainOk(e[k + 1..])
  }

  lemma AllPlainConcat(a: string, b: string)
    ensures AllPlain(a + b) <==> AllPlain(a) && AllPlain(b)
  {
    if AllPlain(a) && AllPlain(b) {
      forall i | 0 <= i < |a + b|
        ensures Plain((a + b)[i])
      {
        if i < |a| { assert (a + b)[i] == a[i]; } else { assert (a + b)[i] == b[i - |a|]; }
      }
    }
    if AllPlain(a + b) {
      forall i | 0 <= i < |a| ensures Plain(a[i]) { assert a[i] == (a + b)[i]; }
      forall i | 0 <= i < |b| ensures Plain(b[i]) { assert b[i] == (a + b)[|a| + i]; }
    }
  }

  lemma PatternGivesEmailOk(local: string, domain: string, tld: string)
    requires PlainRun(local) && PlainRun(domain) && PlainRun(tld)
    ensures EmailOk(Compose(local, domain, tld))
  {
  }

  lemma EmailOkGivesPattern(e: string, k: nat, j: nat)
    requires 0 < k < |e| && e[k] == '@' && AllPlain(e[..k])
    requires AllPlain(e[k + 1..]) && 0 < j < |e[k + 1..]| - 1 && e[k + 1..][j] == '.'
    ensures MatchesPattern(e)
  {
    var r := e[k + 1..];
    var local, domain, tld := e[..k], r[..j], r[j + 1..];
    assert r == domain + r[j..];
    assert r[j..] == "." + tld;
    AllPlainConcat(domain, r[j..]);
    AllPlainConcat(".", tld);
    assert e == local + "@" + r;
    assert e == Compose(local, domain, tld);
  }

  /** The regular expression and the character-level characterisation
      accept exactly the same strings. */
  lemma MatchesPatternIffEmailOk(e: string)
    ensures MatchesPattern(e) <==> EmailOk(e)
  {
    if MatchesPattern(e) {
      var local: string, domain: string, tld: string :|
        PlainRun(local) && PlainRun(domain) && PlainRun(tld) && e == Compose(local, domain, tld);
      PatternGivesEmailOk(local, domain, tld);
    }
    if EmailOk(e) {
      var k :| 0 < k < |e| && e[k] == '@' && AllPlain(e[..k]) && DomainOk(e[k + 1..]);
      var j :| 0 < j < |e[k + 1..]| - 1 && e[k + 1..][j] == '.';
      EmailOkGivesPattern(e, k, j);
    }
  }

  /** `a@b.co` passes, and so does `a@b.c.d`, whose domain holds a dot. */
  lemma AcceptedExamples()
    ensures EmailOk("a@b.co") && EmailOk("a@b.c.d")
  {
    assert PlainRun("a") && PlainRun("b") && PlainRun("co") && PlainRun("c.d");
    PatternGivesEmailOk("a", "b", "co");
    assert Compose("a", "b", "co") == "a@b.co";
    PatternGivesEmailOk("a", "b", "c.d");
    assert Compose("a", "b", "c.d") == "a@b.c.d";
  }

  /** An address with no `@`, with nothing before the `@`, or with no
      dot strictly inside the part after the `@` fails. */
  lemma RejectedExamples()
    ensures !EmailOk("bad") && !EmailOk("@b.co") && !EmailOk("a@b.")
  {
  }

  // ---------------------------------------------------------------------
  // The scanning automaton.

  /** Where the scan stands: nothing read, inside the local part, just past
      the `@`, inside the domain with no separating dot yet, just past a
      separating dot, inside the top-level part (accepting), or rejected. */
  datatype ScanState = Start | Local | AfterAt | Domain | Dot | Tld | Reject

  function Step(st: ScanState, c: char): ScanState {
    if IsSpace(c) then Reject
    else if c == '@' then (if st == Local then AfterAt else Reject)
    else match st
      case Start => Local
      case Local => Local
      case AfterAt => Domain
      case Domain => if c == '.' then Dot else Domain
      case Dot => Tld
      case Tld => Tld
      case Reject => Reject
  }

  /** Whether the automaton, started in `st`, ends in the accepting state
      after reading `s`. */
  predicate Accepts(st: ScanState, s: string)
    decreases |s|
  {
    if |s| == 0 then st == Tld else Accepts(Step(st, s[0]), s[1..])
  }

  lemma {:induction false} RejectIsFinal(s: string)
    ensures !Accepts(Reject, s)
    decreases |s|
  {
    if |s| > 0 { RejectIsFinal(s[1..]); }
  }

  lemma {:induction false} TldAccepts(s: string)
    ensures Accepts(Tld, s) <==> AllPlain(s)
    decreases |s|
  {
    if |s| > 0 {
      TldAccepts(s[1..]);
      if !Plain(s[0]) { RejectIsFinal(s[1..]); }
      assert s == [s[0]] + s[1..];
      AllPlainConcat([s[0]], s[1..]);
    }
  }

  lemma DotAccepts(s: string)
    ensures Accepts(Dot, s) <==> PlainRun(s)
  {
    if |s| > 0 {
      TldAccepts(s[1..]);
      if !Plain(s[0]) { RejectIsFinal(s[1..]); }
      assert s == [s[0]] + s[1..];
      AllPlainConcat([s[0]], s[1..]);
    }
  }

  /** What the automaton accepts from `Domain`: plain characters with a `.`
      anywhere but last. */
  predicate DotBeforeEnd(s: string) {
    AllPlain(s) && exists j | 0 <= j < |s| - 1 :: s[j] == '.'
  }

  lemma {:induction false} DomainAccepts(s: string)
    ensures Accepts(Domain, s) <==> DotBeforeEnd(s)
    decreases |s|
  {
    if |s| > 0 {
      var c, rest := s[0], s[1..];
      assert s == [c] + rest;
      AllPlainConcat([c], rest);
      if !Plain(c) {
        RejectIsFinal(rest);
      } else if c == '.' {
        DotAccepts(rest);
        if DotBeforeEnd(s) {
          assert |rest| > 0 by {
            var j :| 0 <= j < |s| - 1 && s[j] == '.';
          }
        }
        if PlainRun(rest) { assert s[0] == '.'; }
      } else {
        DomainAccepts(rest);
        if DotBeforeEnd(s) {
          var j :| 0 <= j < |s| - 1 && s[j] == '.';
          assert j > 0;
          assert rest[j - 1] == '.';
        }
        if DotBeforeEnd(rest) {
          var j :| 0 <= j < |rest| - 1 && rest[j] == '.';
          assert s[j + 1] == '.';
        }
      }
    }
  }

  lemma AfterAtAccepts(s: string)
    ensures Accepts(AfterAt, s) <==> DomainOk(s)
  {
    if |s| > 0 {
      var c, rest := s[0], s[1..];
      assert s == [c] + rest;
      AllPlainConcat([c], rest);
      if !Plain(c) {
        RejectIsFinal(rest);
      } else {
        DomainAccepts(rest);
        if DomainOk(s) {
          var j :| 0 < j < |s| - 1 && s[j] == '.';
          assert rest[j - 1] == '.';
        }
        if DotBeforeEnd(rest) {
          var j :| 0 <= j < |rest| - 1 && rest[j] == '.';
          assert s[j + 1] == '.';
        }
      }
    }
  }

  /** What the automaton accepts from `Local`: the rest of a local part
      (possibly empty), the `@`, and a valid domain. */
  predicate LocalTail(s: string) {
    exists k | 0 <= k < |s| :: s[k] == '@' && AllPlain(s[..k]) && DomainOk(s[k + 1..])
  }

  lemma LocalTailFromCons(c: char, rest: string, k: nat)
    requires Plain(c)
    requires 0 <= k < |[c] + rest| && ([c] + rest)[k] == '@'
    requires AllPlain(([c] + rest)[..k]) && DomainOk(([c] + rest)[k + 1..])
    ensures LocalTail(rest)
  {
    var s := [c] + rest;
    assert k > 0;
    assert s[..k] == [c] + rest[..k - 1];
    AllPlainConcat([c], rest[..k - 1]);
    assert rest[k - 1 + 1..] == s[k + 1..];
    assert rest[k - 1] == '@';
  }

  lemma LocalTailToCons(c: char, rest: string, k: nat)
    requires Plain(c)
    requires 0 <= k < |rest| && rest[k] == '@' && AllPlain(rest[..k]) && DomainOk(rest[k + 1..])
    ensures LocalTail([c] + rest)
  {
    var s := [c] + rest;
    assert s[..k + 1] == [c] + rest[..k];
    AllPlainConcat([c], rest[..k]);
    assert s[k + 1 + 1..] == rest[k + 1..];
    assert s[k + 1] == '@';
  }

  /** A plain character in front of a local tail keeps it a local tail. */
  lemma LocalTailPlainCons(c: char, rest: string)
    requires Plain(c)
    ensures LocalTail([c] + rest) <==> LocalTail(rest)
  {
    var s := [c] + rest;
    if LocalTail(s) {
      var k :| 0 <= k < |s| && s[k] == '@' && AllPlain(s[..k]) && DomainOk(s[k + 1..]);
      LocalTailFromCons(c, rest, k);
    }
    if LocalTail(rest) {
      var k :| 0 <= k < |rest| && rest[k] == '@' && AllPlain(rest[..k]) && DomainOk(rest[k + 1..]);
      LocalTailToCons(c, rest, k);
    }
  }

  /** A local tail that starts with `@` has an empty local remainder. */
  lemma LocalTailAtCons(rest: string)
    ensures LocalTail(['@'] + rest) <==> DomainOk(rest)
  {
    var s := ['@'] + rest;
    assert s[..0] == [];
    assert s[1..] == rest;
    forall k | 0 < k < |s|
      ensures !AllPlain(s[..k])
    {
      assert s[..k][0] == '@';
    }
  }

  lemma LocalTailSpaceCons(c: char, rest: string)
    requires IsSpace(c)
    ensures !LocalTail([c] + rest)
  {
    var s := [c] + rest;
    forall k | 0 < k < |s|
      ensures !AllPlain(s[..k])
    {
      assert s[..k][0] == c;
    }
  }

  lemma {:induction false} LocalAccepts(s: string)
    ensures Accepts(Local, s) <==> LocalTail(s)
    decreases |s|
  {
    if |s| > 0 {
      var c, rest := s[0], s[1..];
      assert s == [c] + rest;
      if IsSpace(c) {
        RejectIsFinal(rest);
        LocalTailSpaceCons(c, rest);
      } else if c == '@' {
        AfterAtAccepts(rest);
        LocalTailAtCons(rest);
      } else {
        LocalAccepts(rest);
        LocalTailPlainCons(c, rest);
      }
    }
  }

  lemma EmailOkGivesLocalTail(e: string, k: nat)
    requires 0 < k < |e| && e[k] == '@' && AllPlain(e[..k]) && DomainOk(e[k + 1..])
    ensures Plain(e[0]) && LocalTail(e[1..])
  {
    var rest := e[1..];
    assert e[..k] == [e[0]] + rest[..k - 1];
    AllPlainConcat([e[0]], rest[..k - 1]);
    assert rest[k - 1 + 1..] == e[k + 1..];
    assert rest[k - 1] == '@';
  }

  lemma LocalTailGivesEmailOk(e: string, k: nat)
    requires |e| > 0 && Plain(e[0])
    requires 0 <= k < |e[1..]| && e[1..][k] == '@' && AllPlain(e[1..][..k]) && DomainOk(e[1..][k + 1..])
    ensures EmailOk(e)
  {
    var rest := e[1..];
    assert e[..k + 1] == [e[0]] + rest[..k];
    AllPlainConcat([e[0]], rest[..k]);
    assert e[k + 1 + 1..] == rest[k + 1..];
    assert e[k + 1] == '@';
  }

  /** A valid address is a plain first character followed by a local tail. */
  lemma EmailOkIffLocalTail(e: string)
    ensures EmailOk(e) <==> |e| > 0 && Plain(e[0]) && LocalTail(e[1..])
  {
    if EmailOk(e) {
      var k :| 0 < k < |e| && e[k] == '@' && AllPlain(e[..k]) && DomainOk(e[k + 1..]);
      EmailOkGivesLocalTail(e, k);
    }
    if |e| > 0 && Plain(e[0]) && LocalTail(e[1..]) {
      var rest := e[1..];
      var k :| 0 <= k < |rest| && rest[k] == '@' && AllPlain(rest[..k]) && DomainOk(rest[k + 1..]);
      LocalTailGivesEmailOk(e, k);
    }
  }

  /** The automaton started fresh accepts exactly the valid addresses. */
  lemma StartAccepts(e: string)
    ensures Accepts(Start, e) <==> EmailOk(e)
  {
    EmailOkIffLocalTail(e);
    if |e| > 0 {
      var c, rest := e[0], e[1..];
      if !Plain(c) {
        RejectIsFinal(rest);
      } else {
        LocalAccepts(rest);
      }
    }
  }

  /** One left-to-right pass over the address with a deterministic automaton
      for the pattern's language; it stops early once the automaton has
      rejected. */
  method ScanEmail(e: string) returns (ok: bool)
    ensures ok <==> EmailOk(e)
    ensures ok <==> MatchesPattern(e)
  {
    StartAccepts(e);
    MatchesPatternIffEmailOk(e);
    var st := Start;
    var i := 0;
    while i < |e|
      invariant 0 <= i <= |e|
      invariant Accepts(st, e[i..]) == Accepts(Start, e)
    {
      if st == Reject {
        RejectIsFinal(e[i..]);
        return false;
      }
      assert e[i..][1..] == e[i + 1..];
      st := Step(st, e[i]);
      i := i + 1;
    }
    ok := st == Tld;
  }
}
