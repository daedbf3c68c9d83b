/** The submit handler of the contact form: per-field validation of the
    trimmed name, email and message, and the decision to start the simulated
    send ("Sending...") or stop with error messages attached to the fields. */
module ContactForm {
  import opened Optional
  import opened Text

  const NameRequired := "Name is required"
  const EmailRequired := "Email is required"
  const InvalidEmail := "Please enter a valid email"
  const MessageRequired := "Message is required"

  /** A character of the regular-expression class `[^\s@]`. */
  predicate Plain(c: char) {
    !IsWhitespace(c) && c != '@'
  }

  predicate AllPlain(s: string) {
    forall k :: 0 <= k < |s| ==> Plain(s[k])
  }

  /** The pattern `^[^\s@]+@[^\s@]+\.[^\s@]+$` read literally: `s` splits as
      `a@b.c` with `a`, `b` and `c` non-empty runs of `[^\s@]`. */
  ghost predicate MatchesEmailPattern(s: string) {
    exists at, dot ::
      && 0 < at && at + 1 < dot && dot + 1 < |s|
      && s[at] == '@' && s[dot] == '.'
      && AllPlain(s[..at]) && AllPlain(s[at + 1..dot]) && AllPlain(s[dot + 1..])
  }

  /** Length of the longest prefix of `[^\s@]` characters. */
  function PlainPrefix(s: string): (k: nat)
    ensures k <= |s| && AllPlain(s[..k])
    ensures k < |s| ==> !Plain(s[k])
  {
    if |s| > 0 && Plain(s[0]) then
      var k := 1 + PlainPrefix(s[1..]);
      assert s[..k] == [s[0]] + s[1..][..k - 1];
      k
    else 0
  }

  /** A '.' with at least one character on each side. */
  predicate HasInnerDot(s: string) {
    exists p :: 1 <= p < |s| - 1 && s[p] == '.'
  }

  /** `isValidEmail`: a single left-to-right reading of the pattern. The first
      character outside `[^\s@]` must be an '@' that is not the first
      character; everything after it must be `[^\s@]` (a '.' is such a
      character) and contain a '.' that is neither first nor last. */
  function IsValidEmail(s: string): (ok: bool)
    ensures ok <==> MatchesEmailPattern(s)
  {
    EmailCheckIsPattern(s);
    EmailCheck(s)
  }

  /** The check of `IsValidEmail`, spelled out. */
  predicate EmailCheck(s: string) {
    var k := PlainPrefix(s);
    0 < k < |s| && s[k] == '@' && AllPlain(s[k + 1..]) && HasInnerDot(s[k + 1..])
  }

  lemma EmailCheckIsPattern(s: string)
    ensures EmailCheck(s) <==> MatchesEmailPattern(s)
  {
    if EmailCheck(s) {
      EmailCheckSound(s);
    }
    if MatchesEmailPattern(s) {
      var at, dot :|
        && 0 < at && at + 1 < dot && dot + 1 < |s|
        && s[at] == '@' && s[dot] == '.'
        && AllPlain(s[..at]) && AllPlain(s[at + 1..dot]) && AllPlain(s[dot + 1..]);
      EmailCheckComplete(s, at, dot);
    }
  }

  lemma EmailCheckSound(s: string)
    requires EmailCheck(s)
    ensures MatchesEmailPattern(s)
  {
    var k := PlainPrefix(s);
    var rest := s[k + 1..];
    var p :| 1 <= p < |rest| - 1 && rest[p] == '.';
    var dot := k + 1 + p;
    assert s[k + 1..dot] == rest[..p];
    assert s[dot + 1..] == rest[p + 1..];
    assert s[dot] == '.';
    AllPlainSlice(rest, 0, p);
    AllPlainSlice(rest, p + 1, |rest|);
    assert rest[..p] == rest[0..p];
  }

  lemma AllPlainSlice(s: string, i: nat, j: nat)
    requires i <= j <= |s| && AllPlain(s)
    ensures AllPlain(s[i..j])
  {
  }

  lemma EmailCheckComplete(s: string, at: nat, dot: nat)
    requires 0 < at && at + 1 < dot && dot + 1 < |s|
    requires s[at] == '@' && s[dot] == '.'
    requires AllPlain(s[..at]) && AllPlain(s[at + 1..dot]) && AllPlain(s[dot + 1..])
    ensures EmailCheck(s)
  {
    var k := PlainPrefix(s);
    assert k == at;
    var rest := s[k + 1..];
    forall q | 0 <= q < |rest| ensures Plain(rest[q]) {
      if k + 1 + q < dot {
        assert rest[q] == s[at + 1..dot][q];
      } else if k + 1 + q > dot {
        assert rest[q] == s[dot + 1..][k + 1 + q - dot - 1];
      }
    }
    assert rest[dot - k - 1] == '.';
  }

  /** The error message attached to each field; `None` means the field passed. */
  datatype FieldErrors = FieldErrors(name: Option<string>, email: Option<string>, message: Option<string>)

  /** Outcome of a submit event: either the button switches to "Sending..." or
      submission stops with the given field errors. */
  datatype Submission = Sending | Rejected(errors: FieldErrors)

  /** The three independent checks of the submit handler on the raw field
      values. Every field is checked (no short-circuit), and the email field
      gets at most one of its two messages. */
  function CheckFields(name: string, email: string, message: string): (e: FieldErrors)
    ensures e.name == Some(NameRequired) <==> AllWhitespace(name)
    ensures e.name == None <==> !AllWhitespace(name)
    ensures e.email == Some(EmailRequired) <==> AllWhitespace(email)
    ensures e.email == Some(InvalidEmail) <==> !AllWhitespace(email) && !MatchesEmailPattern(Trim(email))
    ensures e.email == None <==> MatchesEmailPattern(Trim(email))
    ensures e.message == Some(MessageRequired) <==> AllWhitespace(message)
    ensures e.message == None <==> !AllWhitespace(message)
  {
    var n := Trim(name);
    var m := Trim(email);
    var t := Trim(message);
    FieldErrors(
      if n == [] then Some(NameRequired) else None,
      if m == [] then Some(EmailRequired) else if !IsValidEmail(m) then Some(InvalidEmail) else None,
      if t == [] then Some(MessageRequired) else None)
  }

  /** The submit handler's decision. */
  function Submit(name: string, email: string, message: string): (r: Submission)
    ensures r == Sending <==>
              && !AllWhitespace(name)
              && MatchesEmailPattern(Trim(email))
              && !AllWhitespace(message)
    ensures r.Rejected? ==> r.errors == CheckFields(name, email, message)
    ensures r.Rejected? ==> r.errors != FieldErrors(None, None, None)
  {
    var e := CheckFields(name, email, message);
    if e == FieldErrors(None, None, None) then Sending else Rejected(e)
  }

  /** Sample addresses the pattern accepts: one '@', no white space, and a
      '.' with text on both sides somewhere after the '@'. */
  lemma EmailAcceptsExamples()
    ensures IsValidEmail("a@b.c")
    ensures IsValidEmail("a@b.c.d")
  {
    EmailAcceptsShort();
    EmailAcceptsDotted();
  }

  lemma EmailAcceptsShort()
    ensures EmailCheck("a@b.c")
  {
    assert PlainPrefix("a@b.c") == 1;
    assert "a@b.c"[2..] == "b.c";
    assert "b.c"[1] == '.';
  }

  lemma EmailAcceptsDotted()
    ensures EmailCheck("a@b.c.d")
  {
    assert PlainPrefix("a@b.c.d") == 1;
    assert "a@b.c.d"[2..] == "b.c.d";
    assert "b.c.d"[1] == '.';
  }

  /** Sample addresses the pattern rejects: no '.', a '.' right after the
      '@', nothing before the '@', a second '@', inner white space. */
  lemma EmailRejectsExamples()
    ensures !IsValidEmail("a@b")
    ensures !IsValidEmail("a@.c")
    ensures !IsValidEmail("@b.c")
    ensures !IsValidEmail("a@b@c.d")
    ensures !IsValidEmail("a b@c.d")
  {
    assert PlainPrefix("a@b") == 1;
    assert PlainPrefix("a@.c") == 1;
    assert PlainPrefix("@b.c") == 0;
    assert PlainPrefix("a@b@c.d") == 1;
    assert "a@b@c.d"[2..][1] == '@';
    assert PlainPrefix("a b@c.d") == 1;
  }

  /** A blank name and a malformed email are both reported in one submit;
      the message passes. */
  lemma SubmitReportsEveryField()
    ensures Submit("  ", "ab@c", "Hi") ==
              Rejected(FieldErrors(Some(NameRequired), Some(InvalidEmail), None))
  {
    assert AllWhitespace("  ");
    assert !AllWhitespace("Hi") by { assert !IsWhitespace("Hi"[0]); }
    assert !AllWhitespace("ab@c") by { assert !IsWhitespace("ab@c"[0]); }
    TrimOfTrimmed("ab@c");
    EmailRejectsNoDot();
  }

  lemma EmailRejectsNoDot()
    ensures !MatchesEmailPattern("ab@c")
  {
    assert PlainPrefix("ab@c") == 2;
    EmailCheckIsPattern("ab@c");
  }
}
