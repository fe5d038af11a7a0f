/** The email-shape check `/^[^\s@]+@[^\s@]+\.[^\s@]+$/` used by the submit
    and email routes, written twice: as the language the pattern denotes and
    as a single left-to-right scanner, proved to agree. */
module EmailFormat {
  import opened Text

  /** A character matched by the class `[^\s@]`. */
  predicate IsAtomChar(c: char) {
    c != '@' && !IsWhitespace(c)
  }

  /** Every character of `s` is matched by `[^\s@]` (`s` may be empty). */
  predicate AllAtom(s: string) {
    forall k :: 0 <= k < |s| ==> IsAtomChar(s[k])
  }

  /** A non-empty run matched by `[^\s@]+`. */
  predicate IsAtom(s: string) {
    |s| > 0 && AllAtom(s)
  }

  /** The language of the pattern: `s` is local + "@" + domain + "." + tld,
      each part a non-empty run with no whitespace and no '@'. */
  ghost predicate MatchesPattern(s: string) {
    exists local, domain, tld ::
      IsAtom(local) && IsAtom(domain) && IsAtom(tld) && s == local + "@" + domain + "." + tld
  }

  /** The same language described by positions: no whitespace anywhere, a
      single '@' that is not the first character, and a '.' after it that is
      neither the first nor the last character of the part after the '@'. */
  ghost predicate HasAddressShape(s: string) {
    && (forall k :: 0 <= k < |s| ==> !IsWhitespace(s[k]))
    && exists at ::
      && 0 < at < |s| && s[at] == '@'
      && (forall k :: 0 <= k < |s| && s[k] == '@' ==> k == at)
      && (exists dot :: at + 1 < dot < |s| - 1 && s[dot] == '.')
  }

  /** The states of the scanner; each names what the characters read so far
      are a prefix of. */
  datatype ScanState =
    | Start      // nothing read
    | Local      // a non-empty local part
    | AfterAt    // local part and '@'
    | Domain     // '@' and a domain with no '.' that could end it yet
    | DomainDot  // the last character read is a '.' that may end the domain
    | Accept     // a complete address; more atom characters keep it complete
    | Reject     // no continuation matches

  function Step(st: ScanState, c: char): ScanState {
    if IsWhitespace(c) then Reject
    else match st
      case Start => if c == '@' then Reject else Local
      case Local => if c == '@' then AfterAt else Local
      case AfterAt => if c == '@' then Reject else Domain
      case Domain => if c == '@' then Reject else if c == '.' then DomainDot else Domain
      case DomainDot => if c == '@' then Reject else Accept
      case Accept => if c == '@' then Reject else Accept
      case Reject => Reject
  }

  /** Runs the scanner over `s` from state `st`. */
  function Scan(st: ScanState, s: string): ScanState
    decreases |s|
  {
    if s == [] then st else Scan(Step(st, s[0]), s[1..])
  }

  /** `emailRegex.test(s)`, computed by one pass of the scanner. */
  function IsValidEmail(s: string): (ok: bool)
    ensures ok <==> MatchesPattern(s)
    ensures ok <==> HasAddressShape(s)
  {
    ScannerAgreesWithShape(s);
    PatternAgreesWithShape(s);
    Scan(Start, s) == Accept
  }

  // ---------------------------------------------------------------------
  // What each scanner state accepts

  /** Once the scanner has rejected, no continuation is accepted. */
  lemma {:induction false} RejectIsFinal(s: string)
    ensures Scan(Reject, s) == Reject
  {
    if s != [] {
      RejectIsFinal(s[1..]);
    }
  }

  lemma {:induction false} FromAccept(s: string)
    ensures Scan(Accept, s) == Accept <==> AllAtom(s)
  {
    if s != [] {
      FromAccept(s[1..]);
      RejectIsFinal(s[1..]);
      assert AllAtom(s) <==> IsAtomChar(s[0]) && AllAtom(s[1..]);
    }
  }

  lemma {:induction false} FromDomainDot(s: string)
    ensures Scan(DomainDot, s) == Accept <==> IsAtom(s)
  {
    if s != [] {
      FromAccept(s[1..]);
      RejectIsFinal(s[1..]);
      assert AllAtom(s) <==> IsAtomChar(s[0]) && AllAtom(s[1..]);
    }
  }

  /** From Domain: all atom characters, with a '.' somewhere before the last one. */
  lemma {:induction false} FromDomain(s: string)
    ensures Scan(Domain, s) == Accept <==>
      AllAtom(s) && exists j :: 0 <= j < |s| - 1 && s[j] == '.'
  {
    if s != [] {
      RejectIsFinal(s[1..]);
      FromDomain(s[1..]);
      FromDomainDot(s[1..]);
      assert AllAtom(s) <==> IsAtomChar(s[0]) && AllAtom(s[1..]);
      if exists j :: 0 <= j < |s| - 1 && s[j] == '.' {
        var j :| 0 <= j < |s| - 1 && s[j] == '.';
        if j > 0 {
          assert s[1..][j - 1] == '.';
        }
      }
      if exists j :: 0 <= j < |s[1..]| - 1 && s[1..][j] == '.' {
        var j :| 0 <= j < |s[1..]| - 1 && s[1..][j] == '.';
        assert s[j + 1] == '.';
      }
    }
  }

  /** From AfterAt: all atom characters, with a '.' that is neither first nor last. */
  lemma {:induction false} FromAfterAt(s: string)
    ensures Scan(AfterAt, s) == Accept <==> AllAtom(s) && InnerDot(s)
  {
    if s != [] {
      RejectIsFinal(s[1..]);
      FromDomain(s[1..]);
      assert AllAtom(s) <==> IsAtomChar(s[0]) && AllAtom(s[1..]);
      if exists j :: 1 <= j < |s| - 1 && s[j] == '.' {
        var j :| 1 <= j < |s| - 1 && s[j] == '.';
        assert s[1..][j - 1] == '.';
      }
      if exists j :: 0 <= j < |s[1..]| - 1 && s[1..][j] == '.' {
        var j :| 0 <= j < |s[1..]| - 1 && s[1..][j] == '.';
        assert s[j + 1] == '.';
      }
    }
  }

  /** A '.' in `d` that is neither its first nor its last character. */
  ghost predicate InnerDot(d: string) {
    exists j :: 1 <= j < |d| - 1 && d[j] == '.'
  }

  /** `s` has an '@' at index `at`, atom characters before it, and after it
      atom characters with an inner '.'. */
  ghost predicate SplitAt(s: string, at: int) {
    && 0 <= at < |s| && s[at] == '@'
    && AllAtom(s[..at])
    && AllAtom(s[at + 1..]) && InnerDot(s[at + 1..])
  }

  /** Splitting `s` at an '@' past its first character is the same as
      splitting its tail one position earlier. */
  lemma SplitAtTail(s: string, at: int)
    requires 0 < at < |s|
    ensures SplitAt(s, at) <==> IsAtomChar(s[0]) && SplitAt(s[1..], at - 1)
  {
    assert s[1..][..at - 1] == s[1..at];
    assert s[1..][at - 1 + 1..] == s[at + 1..];
    assert AllAtom(s[..at]) <==> IsAtomChar(s[0]) && AllAtom(s[1..at]) by {
      assert s[..at][0] == s[0];
      assert forall k :: 1 <= k < at ==> s[..at][k] == s[1..at][k - 1];
    }
  }

  /** From Local: atom characters up to an '@', then a domain part. */
  lemma {:induction false} FromLocal(s: string)
    ensures Scan(Local, s) == Accept <==> exists at :: SplitAt(s, at)
  {
    if s != [] {
      RejectIsFinal(s[1..]);
      FromLocal(s[1..]);
      FromAfterAt(s[1..]);
      if Scan(Local, s) == Accept {
        if s[0] == '@' {
          assert s[1..] == s[0 + 1..];
          assert SplitAt(s, 0);
        } else {
          var at :| SplitAt(s[1..], at);
          SplitAtTail(s, at + 1);
          assert SplitAt(s, at + 1);
        }
      }
      if exists at :: SplitAt(s, at) {
        var at :| SplitAt(s, at);
        if at > 0 {
          SplitAtTail(s, at);
          assert SplitAt(s[1..], at - 1);
        } else {
          assert s[1..] == s[at + 1..];
        }
      }
    }
  }

  /** The scanner accepts exactly the strings split by an '@' past the first character. */
  lemma {:induction false} ScannerAccepts(s: string)
    ensures Scan(Start, s) == Accept <==> exists at :: 0 < at && SplitAt(s, at)
  {
    if s != [] {
      RejectIsFinal(s[1..]);
      FromLocal(s[1..]);
      if Scan(Start, s) == Accept {
        var at :| SplitAt(s[1..], at);
        SplitAtTail(s, at + 1);
        assert SplitAt(s, at + 1);
      }
      if exists at :: 0 < at && SplitAt(s, at) {
        var at :| 0 < at && SplitAt(s, at);
        SplitAtTail(s, at);
        assert SplitAt(s[1..], at - 1);
      }
    }
  }

  /** A split at `at` is the positional shape with its '@' at `at`. */
  lemma SplitGivesShape(s: string, at: int)
    requires 0 < at && SplitAt(s, at)
    ensures HasAddressShape(s)
  {
    var d := s[at + 1..];
    var j :| 1 <= j < |d| - 1 && d[j] == '.';
    assert s[at + 1 + j] == '.';
    forall k | 0 <= k < |s|
      ensures !IsWhitespace(s[k]) && (s[k] == '@' ==> k == at)
    {
      if k < at {
        assert s[k] == s[..at][k];
      } else if k > at {
        assert s[k] == d[k - at - 1];
      }
    }
  }

  /** The positional shape splits at its '@'. */
  lemma ShapeGivesSplit(s: string, at: int, dot: int)
    requires forall k :: 0 <= k < |s| ==> !IsWhitespace(s[k])
    requires 0 < at < |s| && s[at] == '@'
    requires forall k :: 0 <= k < |s| && s[k] == '@' ==> k == at
    requires at + 1 < dot < |s| - 1 && s[dot] == '.'
    ensures SplitAt(s, at)
  {
    var d := s[at + 1..];
    assert d[dot - at - 1] == '.';
    forall k | 0 <= k < at ensures IsAtomChar(s[..at][k]) {
      assert s[..at][k] == s[k];
    }
    forall k | 0 <= k < |d| ensures IsAtomChar(d[k]) {
      assert d[k] == s[at + 1 + k];
    }
  }

  /** The scanner agrees with the positional description. */
  lemma {:induction false} ScannerAgreesWithShape(s: string)
    ensures Scan(Start, s) == Accept <==> HasAddressShape(s)
  {
    ScannerAccepts(s);
    if Scan(Start, s) == Accept {
      var at :| 0 < at && SplitAt(s, at);
      SplitGivesShape(s, at);
    }
    if HasAddressShape(s) {
      var at :| 0 < at < |s| && s[at] == '@'
        && (forall k :: 0 <= k < |s| && s[k] == '@' ==> k == at)
        && (exists dot :: at + 1 < dot < |s| - 1 && s[dot] == '.');
      var dot :| at + 1 < dot < |s| - 1 && s[dot] == '.';
      ShapeGivesSplit(s, at, dot);
    }
  }

  /** An address built from three runs has the positional shape. */
  lemma PartsGiveShape(s: string, local: string, domain: string, tld: string)
    requires IsAtom(local) && IsAtom(domain) && IsAtom(tld)
    requires s == local + "@" + domain + "." + tld
    ensures HasAddressShape(s)
  {
    var at := |local|;
    var dot := |local| + 1 + |domain|;
    assert s[at] == '@' && s[dot] == '.';
    forall k | 0 <= k < |s|
      ensures !IsWhitespace(s[k]) && (s[k] == '@' ==> k == at)
    {
      if k < at {
        assert s[k] == local[k];
      } else if at < k < dot {
        assert s[k] == domain[k - at - 1];
      } else if dot < k {
        assert s[k] == tld[k - dot - 1];
      }
    }
  }

  /** The positional shape is built from three runs. */
  lemma ShapeGivesParts(s: string, at: int, dot: int)
    requires forall k :: 0 <= k < |s| ==> !IsWhitespace(s[k])
    requires 0 < at < |s| && s[at] == '@'
    requires forall k :: 0 <= k < |s| && s[k] == '@' ==> k == at
    requires at + 1 < dot < |s| - 1 && s[dot] == '.'
    ensures MatchesPattern(s)
  {
    var local, domain, tld := s[..at], s[at + 1..dot], s[dot + 1..];
    assert s == local + "@" + domain + "." + tld;
    forall k | 0 <= k < |local| ensures IsAtomChar(local[k]) {
      assert local[k] == s[k];
    }
    forall k | 0 <= k < |domain| ensures IsAtomChar(domain[k]) {
      assert domain[k] == s[at + 1 + k];
    }
    forall k | 0 <= k < |tld| ensures IsAtomChar(tld[k]) {
      assert tld[k] == s[dot + 1 + k];
    }
    assert IsAtom(local) && IsAtom(domain) && IsAtom(tld);
  }

  /** The pattern's language agrees with the positional description. */
  lemma {:induction false} PatternAgreesWithShape(s: string)
    ensures MatchesPattern(s) <==> HasAddressShape(s)
  {
    if MatchesPattern(s) {
      var local, domain, tld :| IsAtom(local) && IsAtom(domain) && IsAtom(tld)
        && s == local + "@" + domain + "." + tld;
      PartsGiveShape(s, local, domain, tld);
    }
    if HasAddressShape(s) {
      var at :| 0 < at < |s| && s[at] == '@'
        && (forall k :: 0 <= k < |s| && s[k] == '@' ==> k == at)
        && (exists dot :: at + 1 < dot < |s| - 1 && s[dot] == '.');
      var dot :| at + 1 < dot < |s| - 1 && s[dot] == '.';
      ShapeGivesParts(s, at, dot);
    }
  }

  // ---------------------------------------------------------------------
  // Boundary cases of the pattern

  /** A domain without '.', a '.' right after the '@' or at the very end, a
      missing local part, a second '@', whitespace, and no '@' at all are
      rejected. */
  lemma RejectedExamples()
    ensures !IsValidEmail("a@b")
    ensures !IsValidEmail("a@.com")
    ensures !IsValidEmail("a@b.")
    ensures !IsValidEmail("@b.c")
    ensures !IsValidEmail("a@b@c.d")
    ensures !IsValidEmail("a b@c.d")
    ensures !IsValidEmail("not-an-email")
  {
    NoDomainDot();
    LeadingDot();
    TrailingDot();
    NoLocal();
    TwoAts();
    Space();
    NoAt();
  }

  lemma NoDomainDot() ensures Scan(Start, "a@b") == Domain {
    assert "a@b"[1..] == "@b" && "@b"[1..] == "b" && "b"[1..] == "";
  }

  lemma LeadingDot() ensures Scan(Start, "a@.com") == Domain {
    assert "a@.com"[1..] == "@.com" && "@.com"[1..] == ".com" && ".com"[1..] == "com";
    assert "com"[1..] == "om" && "om"[1..] == "m" && "m"[1..] == "";
  }

  lemma TrailingDot() ensures Scan(Start, "a@b.") == DomainDot {
    assert "a@b."[1..] == "@b." && "@b."[1..] == "b." && "b."[1..] == "." && "."[1..] == "";
  }

  lemma NoLocal() ensures Scan(Start, "@b.c") == Reject {
    RejectIsFinal("b.c");
    assert "@b.c"[1..] == "b.c";
  }

  lemma TwoAts() ensures Scan(Start, "a@b@c.d") == Reject {
    RejectIsFinal("c.d");
    assert "a@b@c.d"[1..] == "@b@c.d" && "@b@c.d"[1..] == "b@c.d" && "b@c.d"[1..] == "@c.d";
    assert "@c.d"[1..] == "c.d";
  }

  lemma Space() ensures Scan(Start, "a b@c.d") == Reject {
    assert IsWhitespace(' ');
    RejectIsFinal("b@c.d");
    assert "a b@c.d"[1..] == " b@c.d" && " b@c.d"[1..] == "b@c.d";
  }

  lemma NoAt() ensures Scan(Start, "not-an-email") != Accept {
    var s := "not-an-email";
    ScannerAccepts(s);
  }

  /** Repeated dots, several dots and an ordinary address are accepted. */
  lemma AcceptedExamples()
    ensures IsValidEmail("a@b..c")
    ensures IsValidEmail("a@b.c.d")
    ensures IsValidEmail("a@b.com")
  {
    assert MatchesPattern("a@b..c") by {
      assert "a@b..c" == "a" + "@" + "b" + "." + ".c";
      PartsMatch("a", "b", ".c");
    }
    assert MatchesPattern("a@b.c.d") by {
      assert "a@b.c.d" == "a" + "@" + "b" + "." + "c.d";
      PartsMatch("a", "b", "c.d");
    }
    assert MatchesPattern("a@b.com") by {
      assert "a@b.com" == "a" + "@" + "b" + "." + "com";
      PartsMatch("a", "b", "com");
    }
  }

  /** Three pieces without whitespace or '@', joined by '@' and '.', match. */
  lemma PartsMatch(local: string, domain: string, tld: string)
    requires local != [] && domain != [] && tld != []
    requires forall k :: 0 <= k < |local| ==> IsAtomChar(local[k])
    requires forall k :: 0 <= k < |domain| ==> IsAtomChar(domain[k])
    requires forall k :: 0 <= k < |tld| ==> IsAtomChar(tld[k])
    ensures MatchesPattern(local + "@" + domain + "." + tld)
  {
    assert IsAtom(local) && IsAtom(domain) && IsAtom(tld);
  }
}
