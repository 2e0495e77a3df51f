/** The email rule: Python's `re.match(r"[^@]+@[^@]+\.[^@]+", value)`, which is
    anchored at the start of the value and not at its end. */
module Email {
  import opened Strings

  /** The pattern matches a prefix of `s` with its four pieces split at `at`, `dot` and `end`:
      `s[..at]` is the first `[^@]+`, `s[at]` the `@`, `s[at + 1..dot]` the second `[^@]+`,
      `s[dot]` the `.` and `s[dot + 1..end]` the third `[^@]+`. */
  predicate MatchAt(s: string, at: int, dot: int, end: int) {
    && 0 < at && at + 1 < dot && dot + 1 < end <= |s|
    && '@' !in s[..at] && s[at] == '@'
    && '@' !in s[at + 1..dot] && s[dot] == '.'
    && '@' !in s[dot + 1..end]
  }

  /** What `re.match` decides: some split of some prefix of `s` fits the pattern. */
  ghost predicate RegexMatches(s: string) {
    exists at, dot, end :: MatchAt(s, at, dot, end)
  }

  /** Some `.` with at least one character on each side. */
  predicate HasInnerDot(t: string) {
    exists j :: 1 <= j < |t| - 1 && t[j] == '.'
  }

  /** The email check: the first `@` has something before it, and the text after it,
      up to any second `@`, holds a `.` with a character on each side. */
  function ValidEmail(s: string): bool
  {
    var at := IndexOf(s, '@');
    if at == 0 || at == |s| then false
    else
      var rest := s[at + 1..];
      HasInnerDot(rest[..IndexOf(rest, '@')])
  }

  /** A match found by the check is a match of the pattern. */
  lemma ValidEmailMatches(s: string)
    requires ValidEmail(s)
    ensures RegexMatches(s)
  {
    var at := IndexOf(s, '@');
    var rest := s[at + 1..];
    var domain := rest[..IndexOf(rest, '@')];
    var j :| 1 <= j < |domain| - 1 && domain[j] == '.';
    var dot, end := at + 1 + j, at + 3 + j;
    assert s[at + 1..dot] == domain[..j];
    assert '@' !in domain[..j] by {
      assert forall x :: x in domain[..j] ==> x in domain;
    }
    assert s[dot + 1..end] == [domain[j + 1]];
    assert MatchAt(s, at, dot, end);
  }

  /** A match of the pattern is found by the check: the first piece must end at the first `@`,
      and the `.` lies before any second `@`. */
  lemma MatchesValidEmail(s: string, at: int, dot: int, end: int)
    requires MatchAt(s, at, dot, end)
    ensures ValidEmail(s)
  {
    IndexOfUnique(s, '@', at);
    assert IndexOf(s, '@') == at;
    var rest := s[at + 1..];
    var len := end - at - 1;
    assert rest[..len] == s[at + 1..dot] + [s[dot]] + s[dot + 1..end];
    assert '@' !in rest[..len];
    var stop := IndexOf(rest, '@');
    assert len <= stop;
    var domain := rest[..stop];
    var j := dot - at - 1;
    assert 1 <= j < |domain| - 1;
    assert domain[j] == s[dot];
    assert HasInnerDot(domain);
  }


  /** The check accepts exactly the values the start-anchored pattern matches. */
  lemma ValidEmailIff(s: string)
    ensures ValidEmail(s) <==> RegexMatches(s)
  {
    if ValidEmail(s) {
      ValidEmailMatches(s);
    }
    if RegexMatches(s) {
      var at, dot, end :| MatchAt(s, at, dot, end);
      MatchesValidEmail(s, at, dot, end);
    }
  }

  /** Text after a match does not matter: a valid value stays valid whatever follows it. */
  lemma TrailingContentAllowed(s: string, tail: string)
    requires ValidEmail(s)
    ensures ValidEmail(s + tail)
  {
    ValidEmailMatches(s);
    var at, dot, end :| MatchAt(s, at, dot, end);
    var t := s + tail;
    assert t[..at] == s[..at];
    assert t[at + 1..dot] == s[at + 1..dot];
    assert t[dot + 1..end] == s[dot + 1..end];
    MatchesValidEmail(t, at, dot, end);
  }

  /** A value with no `@` never passes; the empty value (a missing email) among them. */
  lemma NoAtFails(s: string)
    requires '@' !in s
    ensures !ValidEmail(s)
  {
  }

  lemma ShortestExample()
    ensures ValidEmail("a@b.c")
  {
    assert MatchAt("a@b.c", 1, 3, 5);
    MatchesValidEmail("a@b.c", 1, 3, 5);
  }

  lemma DomainExample()
    ensures ValidEmail("x@y.com")
  {
    assert MatchAt("x@y.com", 1, 3, 5);
    MatchesValidEmail("x@y.com", 1, 3, 5);
  }

  /** Content after a match is accepted: the pattern is not anchored at the end. */
  lemma TrailingDotExample()
    ensures ValidEmail("a@b.c.extra")
  {
    assert MatchAt("a@b.c.extra", 1, 3, 5);
    MatchesValidEmail("a@b.c.extra", 1, 3, 5);
  }

  lemma TrailingAtExample()
    ensures ValidEmail("a@b.c@d")
  {
    assert MatchAt("a@b.c@d", 1, 3, 5);
    MatchesValidEmail("a@b.c@d", 1, 3, 5);
  }

  lemma CommonExample()
    ensures ValidEmail("a@b.com")
  {
    assert MatchAt("a@b.com", 1, 3, 5);
    MatchesValidEmail("a@b.com", 1, 3, 5);
  }

  lemma NotAnEmailFails()
    ensures !ValidEmail("not-an-email")
  {
    NoAtFails("not-an-email");
  }

  lemma BadFails()
    ensures !ValidEmail("bad")
  {
    NoAtFails("bad");
  }

  lemma NoAtExamples()
    ensures !ValidEmail("not-an-email")
    ensures !ValidEmail("bad")
    ensures !ValidEmail("")
  {
    NotAnEmailFails();
    BadFails();
  }


  lemma EmptyLocalExample()
    ensures !ValidEmail("@b.com")
  {
    assert IndexOf("@b.com", '@') == 0;
  }

  /** After the `@`, the first character cannot be the `.`: the second piece is not empty. */
  lemma EmptyDomainExample()
    ensures !ValidEmail("a@.com")
  {
    assert IndexOf("a@.com", '@') == 1;
    assert "a@.com"[2..] == ".com";
    assert IndexOf(".com", '@') == 4;
    assert ".com"[..4] == ".com";
  }

  /** The `.` must be followed by a character other than `@`. */
  lemma DotBeforeAtExample()
    ensures !ValidEmail("a@b.@c")
  {
    assert IndexOf("a@b.@c", '@') == 1;
    assert "a@b.@c"[2..] == "b.@c";
    assert IndexOf("b.@c", '@') == 2;
    assert "b.@c"[..2] == "b.";
  }

  lemma NoDotExample()
    ensures !ValidEmail("a@bcom")
  {
    assert IndexOf("a@bcom", '@') == 1;
    assert "a@bcom"[2..] == "bcom";
    assert IndexOf("bcom", '@') == 4;
    assert "bcom"[..4] == "bcom";
  }

  /** Values the email rule accepts, trailing content included, and values it rejects. */
  lemma EmailExamples()
    ensures ValidEmail("a@b.com") && ValidEmail("x@y.com") && ValidEmail("a@b.c")
    ensures ValidEmail("a@b.c.extra") && ValidEmail("a@b.c@d")
    ensures !ValidEmail("not-an-email") && !ValidEmail("bad") && !ValidEmail("")
    ensures !ValidEmail("@b.com") && !ValidEmail("a@.com") && !ValidEmail("a@b.@c") && !ValidEmail("a@bcom")
  {
    ShortestExample();
    DomainExample();
    TrailingDotExample();
    TrailingAtExample();
    CommonExample();
    NoAtExamples();
    EmptyLocalExample();
    EmptyDomainExample();
    DotBeforeAtExample();
    NoDotExample();
  }
}
