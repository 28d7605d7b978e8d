/**
 The newsletter sign-up of components/NewsletterModal.tsx: the email pattern
 `/^[^\s@]+@[^\s@]+\.[^\s@]+$/`, the submit handler's checks in their order,
 the subscriber list kept in `localStorage`, and the reset on close.
 */
module Newsletter {
  import opened Text
  import opened Tally

  /** A run of `[^\s@]` characters (possibly empty). */
  predicate Plain(s: string) {
    forall i :: 0 <= i < |s| ==> !IsWhitespace(s[i]) && s[i] != '@'
  }

  /** `validateEmail`: the regular expression read left to right, with `i` at
      the `@` and `j` at the literal `.`; each `+` is a non-empty run. */
  predicate ValidateEmail(s: string): (ok: bool)
    ensures ok ==> |s| >= 5 && '@' in s
  {
    exists i, j :: 0 < i && i + 1 < j && j + 1 < |s| && s[i] == '@' && s[j] == '.' &&
      Plain(s[..i]) && Plain(s[i + 1..j]) && Plain(s[j + 1..])
  }

  /** The domain has a dot that is neither its first nor its last character. */
  predicate HasInnerDot(d: string) {
    exists k :: 0 < k < |d| - 1 && d[k] == '.'
  }

  /** The shape the pattern accepts: a non-empty local part, one `@`, and a
      domain with an inner dot, neither part holding whitespace or `@`. */
  predicate EmailShape(s: string) {
    exists k :: 0 < k < |s| && s[k] == '@' && Plain(s[..k]) && Plain(s[k + 1..]) && HasInnerDot(s[k + 1..])
  }

  lemma PlainConcat(a: string, b: string, c: string)
    requires Plain(a) && Plain(c) && b == ['.']
    ensures Plain(a + b + c)
  {
    var s := a + b + c;
    forall i | 0 <= i < |s| ensures !IsWhitespace(s[i]) && s[i] != '@' {
      if i < |a| {
        assert s[i] == a[i];
      } else if i > |a| {
        assert s[i] == c[i - |a| - 1];
      }
    }
  }

  lemma PlainSlice(s: string, lo: nat, hi: nat)
    requires Plain(s) && lo <= hi <= |s|
    ensures Plain(s[lo..hi])
  {
    forall i | 0 <= i < hi - lo ensures !IsWhitespace(s[lo..hi][i]) && s[lo..hi][i] != '@' {
      assert s[lo..hi][i] == s[lo + i];
    }
  }

  /** The pattern accepts exactly the emails of that shape. */
  lemma ValidateEmailShape(s: string)
    ensures ValidateEmail(s) <==> EmailShape(s)
  {
    if ValidateEmail(s) {
      PatternGivesShape(s);
    }
    if EmailShape(s) {
      ShapeGivesPattern(s);
    }
  }

  lemma PatternGivesShape(s: string)
    requires ValidateEmail(s)
    ensures EmailShape(s)
  {
    var i, j :| 0 < i && i + 1 < j && j + 1 < |s| && s[i] == '@' && s[j] == '.' &&
      Plain(s[..i]) && Plain(s[i + 1..j]) && Plain(s[j + 1..]);
    var d := s[i + 1..];
    DomainSplit(s, i, j);
    assert d[j - i - 1] == '.';
    assert HasInnerDot(d);
    assert 0 < i < |s| && s[i] == '@' && Plain(s[..i]) && Plain(d) && HasInnerDot(d);
  }

  /** The text after the `@` is the two runs around the dot. */
  lemma DomainSplit(s: string, i: nat, j: nat)
    requires i + 1 < j < |s| && s[j] == '.'
    requires Plain(s[i + 1..j]) && Plain(s[j + 1..])
    ensures Plain(s[i + 1..])
  {
    assert s[i + 1..] == s[i + 1..j] + ['.'] + s[j + 1..];
    PlainConcat(s[i + 1..j], ['.'], s[j + 1..]);
  }

  lemma ShapeGivesPattern(s: string)
    requires EmailShape(s)
    ensures ValidateEmail(s)
  {
    var k :| 0 < k < |s| && s[k] == '@' && Plain(s[..k]) && Plain(s[k + 1..]) && HasInnerDot(s[k + 1..]);
    var d := s[k + 1..];
    var m :| 0 < m < |d| - 1 && d[m] == '.';
    DomainRuns(s, k, m);
    PatternWitness(s, k, k + 1 + m);
  }

  /** Splitting the domain at its inner dot gives the pattern's two runs. */
  lemma DomainRuns(s: string, k: nat, m: nat)
    requires k < |s| && Plain(s[k + 1..]) && 0 < m < |s[k + 1..]| - 1 && s[k + 1..][m] == '.'
    ensures s[k + 1 + m] == '.' && Plain(s[k + 1..k + 1 + m]) && Plain(s[k + 1 + m + 1..])
  {
    var d := s[k + 1..];
    PlainSlice(d, 0, m);
    PlainSlice(d, m + 1, |d|);
    assert s[k + 1..k + 1 + m] == d[..m];
    assert s[k + 1 + m + 1..] == d[m + 1..];
  }

  /** The positions `i` of the `@` and `j` of the dot witness the pattern. */
  lemma PatternWitness(s: string, i: nat, j: nat)
    requires 0 < i && i + 1 < j && j + 1 < |s| && s[i] == '@' && s[j] == '.'
    requires Plain(s[..i]) && Plain(s[i + 1..j]) && Plain(s[j + 1..])
    ensures ValidateEmail(s)
  {
  }

  /** An accepted email has no whitespace and exactly one `@`. */
  lemma AcceptedHasOneAt(s: string)
    requires ValidateEmail(s)
    ensures NoWhitespace(s)
    ensures Count(s, '@') == 1
  {
    var i, j :| 0 < i && i + 1 < j && j + 1 < |s| && s[i] == '@' && s[j] == '.' &&
      Plain(s[..i]) && Plain(s[i + 1..j]) && Plain(s[j + 1..]);
    DomainSplit(s, i, j);
    SplitAround(s, i);
    AroundOneAt(s[..i], s[i + 1..]);
  }

  lemma SplitAround(s: string, i: nat)
    requires i < |s|
    ensures s == s[..i] + [s[i]] + s[i + 1..]
  {
  }

  /** Two runs of `[^\s@]` joined by an `@`. */
  lemma AroundOneAt(a: string, b: string)
    requires Plain(a) && Plain(b)
    ensures NoWhitespace(a + ['@'] + b)
    ensures Count(a + ['@'] + b, '@') == 1
  {
    JoinedNoWhitespace(a, b);
    NoAtCount(a);
    NoAtCount(b);
    CountAppend(a, ['@'], '@');
    CountAppend(a + ['@'], b, '@');
  }

  lemma JoinedNoWhitespace(a: string, b: string)
    requires Plain(a) && Plain(b)
    ensures NoWhitespace(a + ['@'] + b)
  {
    var s := a + ['@'] + b;
    assert !IsWhitespace('@');
    forall k | 0 <= k < |s| ensures !IsWhitespace(s[k]) {
      if k < |a| {
        assert s[k] == a[k];
      } else if k > |a| {
        assert s[k] == b[k - |a| - 1];
      } else {
        assert s[k] == '@';
      }
    }
  }

  lemma NoAtCount(s: string)
    requires Plain(s)
    ensures Count(s, '@') == 0
  {
  }

  const ErrorEmpty: string := "Por favor ingresa tu email"
  const ErrorInvalid: string := "Por favor ingresa un email válido"

  /** The modal's React state. */
  datatype Form = Form(email: string, submitting: bool, success: bool, error: string, visible: bool)

  const InitialForm: Form := Form([], false, false, [], false)

  /** `subs.includes(email)` or else `subs.push(email)`. */
  function AddSubscriber(subs: seq<string>, email: string): (r: seq<string>)
    ensures email in subs ==> r == subs
    ensures email !in subs ==> r == subs + [email]
    ensures email in r
    ensures NoDup(subs) ==> NoDup(r)
  {
    if email in subs then subs else subs + [email]
  }

  lemma AddSubscriberIdempotent(subs: seq<string>, email: string)
    ensures AddSubscriber(AddSubscriber(subs, email), email) == AddSubscriber(subs, email)
  {
  }

  /** `handleSubmit`, with the 800 ms pause left out: the new form state and
      the new subscriber list. */
  function Submit(f: Form, subs: seq<string>): (r: (Form, seq<string>))
    ensures IsBlank(f.email) ==> r == (f.(error := ErrorEmpty), subs)
    ensures !IsBlank(f.email) && !ValidateEmail(f.email) ==> r == (f.(error := ErrorInvalid), subs)
    ensures r.0.success <==> f.success || ValidateEmail(f.email)
    ensures ValidateEmail(f.email) ==>
      r == (f.(error := [], submitting := false, success := true), AddSubscriber(subs, f.email))
    ensures r.1 != subs ==> ValidateEmail(f.email) && r.1 == subs + [f.email]
  {
    if IsBlank(f.email) then (f.(error := ErrorEmpty), subs)
    else if !ValidateEmail(f.email) then (f.(error := ErrorInvalid), subs)
    else
      BlankIsNotAnEmail(f.email);
      (f.(error := [], submitting := false, success := true), AddSubscriber(subs, f.email))
  }

  /** A valid email is never blank, so the first check never hides the
      second's acceptance. */
  lemma BlankIsNotAnEmail(s: string)
    requires ValidateEmail(s)
    ensures !IsBlank(s)
  {
    var i, j :| 0 < i && i + 1 < j && j + 1 < |s| && s[i] == '@' && s[j] == '.' &&
      Plain(s[..i]) && Plain(s[i + 1..j]) && Plain(s[j + 1..]);
    BlankIffAllWhitespace(s);
    assert s[0] == s[..i][0];
  }

  /** Of the handler alone: whitespace-only input gets the "enter your email"
      message even though the pattern would reject it as well. On the page the
      field is an email input, whose value the browser strips of leading and
      trailing whitespace, so this state does not reach the handler there. */
  lemma WhitespaceGetsEmptyError()
    ensures Submit(InitialForm.(email := "  "), []).0.error == ErrorEmpty
  {
    BlankIffAllWhitespace("  ");
  }

  /** Every stored subscriber passed the pattern, and none is stored twice. */
  lemma SubmitKeepsListClean(f: Form, subs: seq<string>)
    requires NoDup(subs) && forall k :: 0 <= k < |subs| ==> ValidateEmail(subs[k])
    ensures var subs' := Submit(f, subs).1;
      NoDup(subs') && forall k :: 0 <= k < |subs'| ==> ValidateEmail(subs'[k])
  {
    var subs' := Submit(f, subs).1;
    if subs' != subs {
      assert subs' == subs + [f.email] && ValidateEmail(f.email);
      forall k | 0 <= k < |subs'| ensures ValidateEmail(subs'[k]) {
        if k < |subs| {
          assert subs'[k] == subs[k];
        }
      }
    }
  }

  /** Closing the modal (`isOpen` turning false) clears what was typed and
      any result. */
  function Close(f: Form): (r: Form)
    ensures r == InitialForm.(submitting := f.submitting)
  {
    f.(visible := false, email := [], success := false, error := [])
  }
}
