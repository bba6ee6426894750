/** `OutlookEmailTool` (main/tools/outlook_email.py): the address check `is_valid_email` and the
    defaulting of `forward`'s arguments before the mail is handed to SMTP.

    The check's pattern is the raw string `[^@]+@[^@]+\\.[^@]+`, in which `\\` is an escaped backslash:
    after the `@` part it demands a literal backslash, then any character but a newline, then a
    character other than `@`. An ordinary address such as "a@b.com" holds no backslash, fails the
    check and is replaced by the default address. The model keeps that behaviour. */
module OutlookEmail {
  import opened Strings
  import opened PyValues

  const DefaultAddress: string := "vashista.thakuri@gmail.com"

  // ---------------------------------------------------------------------------------------------
  // is_valid_email

  /** `re.match` succeeds with `[^@]+` ending at the `@` at index `at` and `[^@]+` ending just before
      the backslash at index `bs`. The match is anchored at the start only, so one further non-`@`
      character is enough for the last `[^@]+`. */
  predicate MatchAt(s: string, at: nat, bs: nat)
  {
    && 0 < at && at + 1 < bs && bs + 2 < |s|
    && s[at] == '@'
    && (forall k :: 0 <= k < at ==> s[k] != '@')
    && (forall k :: at < k < bs ==> s[k] != '@')
    && s[bs] == '\\' && s[bs + 1] != '\n' && s[bs + 2] != '@'
  }

  /** The pattern matches at the start of `s`, for some way of splitting it. */
  ghost predicate PatternMatches(s: string)
  {
    exists at: nat, bs: nat :: MatchAt(s, at, bs)
  }

  /** The search for the backslash, from index `j` on, after the `@` at index `at`: it stops at the
      end of the text or at a second `@`, which no `[^@]` can cross. */
  predicate BackslashFrom(s: string, at: nat, j: nat)
    decreases |s| - j
  {
    if j >= |s| || s[j] == '@' then false
    else if at + 2 <= j && s[j] == '\\' && j + 2 < |s| && s[j + 1] != '\n' && s[j + 2] != '@' then true
    else BackslashFrom(s, at, j + 1)
  }

  /** The matcher: the first `@`, not at the start, then the search for the backslash. */
  predicate Matches(s: string)
  {
    var at := FindFrom(s, "@", 0);
    0 < at && BackslashFrom(s, at, at + 1)
  }

  /** `is_valid_email(email)`: a string on which the pattern matches. */
  predicate IsValidEmail(email: PyValue)
    ensures IsValidEmail(email) <==> email.PyStr? && PatternMatches(email.s)
  {
    if email.PyStr? then
      MatchesIff(email.s);
      Matches(email.s)
    else false
  }

  /** The search finds a backslash exactly when one at or after `j` completes a match. */
  lemma {:induction false} BackslashFromIff(s: string, at: nat, j: nat)
    requires at < j && at < |s|
    requires s[at] == '@' && 0 < at && (forall k :: 0 <= k < at ==> s[k] != '@')
    requires forall k :: at < k < j && k < |s| ==> s[k] != '@'
    ensures BackslashFrom(s, at, j) <==> exists bs: nat :: j <= bs && MatchAt(s, at, bs)
    decreases |s| - j
  {
    if j >= |s| {
    } else if s[j] == '@' {
      forall bs: nat | j <= bs ensures !MatchAt(s, at, bs) {
        assert bs == j || at < j < bs;
      }
    } else if at + 2 <= j && s[j] == '\\' && j + 2 < |s| && s[j + 1] != '\n' && s[j + 2] != '@' {
      assert MatchAt(s, at, j);
    } else {
      assert !MatchAt(s, at, j);
      BackslashFromIff(s, at, j + 1);
    }
  }

  /** The matcher decides the pattern. */
  lemma MatchesIff(s: string)
    ensures Matches(s) <==> PatternMatches(s)
  {
    var at := FindFrom(s, "@", 0);
    if at >= 0 {
      assert s[at..at + 1] == [s[at]];
      forall k | 0 <= k < at ensures s[k] != '@' {
        assert !OccursAt(s, "@", k);
        assert s[k..k + 1] == [s[k]];
      }
      forall a: nat, bs: nat | MatchAt(s, a, bs) ensures a == at {
        assert s[a..a + 1] == [s[a]];
      }
      if 0 < at {
        BackslashFromIff(s, at, at + 1);
      }
    } else {
      forall a: nat | a < |s| ensures s[a] != '@' {
        assert !OccursAt(s, "@", a);
        assert s[a..a + 1] == [s[a]];
      }
    }
  }

  /** A text without a backslash never passes, whatever else it holds. */
  lemma NoBackslashRejected(s: string)
    requires forall i :: 0 <= i < |s| ==> s[i] != '\\'
    ensures !IsValidEmail(PyStr(s))
  {
    MatchesIff(s);
    forall a: nat, bs: nat ensures !MatchAt(s, a, bs) {
      if bs < |s| {
        assert s[bs] != '\\';
      }
    }
  }

  /** Only strings can pass. */
  lemma NonStringRejected(email: PyValue)
    requires !email.PyStr?
    ensures !IsValidEmail(email)
  {
  }

  /** An ordinary address such as "a@b.com" is rejected. */
  lemma PlainAddressRejected()
    ensures !IsValidEmail(PyStr("a@b.com"))
  {
    NoBackslashRejected("a@b.com");
  }

  /** "a@b\.com", with a backslash before the dot, passes. */
  lemma BackslashAddressAccepted()
    ensures IsValidEmail(PyStr("a@b\\.com"))
  {
    var s := "a@b\\.com";
    assert MatchAt(s, 1, 3);
    MatchesIff(s);
  }

  /** The default address would itself be rejected, though `forward` never checks it again. */
  lemma DefaultAddressRejected()
    ensures !IsValidEmail(PyStr(DefaultAddress))
  {
    var d := DefaultAddress;
    forall i | 0 <= i < |d| ensures d[i] != '\\' {
    }
    NoBackslashRejected(d);
  }

  // ---------------------------------------------------------------------------------------------
  // forward

  /** The address used: the argument when it passes the check, the default otherwise. */
  function Defaulted(email: PyValue): (r: string)
    ensures IsValidEmail(email) ==> r == email.s
    ensures !IsValidEmail(email) ==> r == DefaultAddress
  {
    if IsValidEmail(email) then email.s else DefaultAddress
  }

  /** `None` becomes the empty string; every other value is kept. */
  function NoneToEmpty(v: PyValue): (r: PyValue)
    ensures v.PyNone? ==> r == PyStr("")
    ensures !v.PyNone? ==> r == v
  {
    if v.PyNone? then PyStr("") else v
  }

  /** An ordinary address is replaced by the default. */
  lemma OrdinaryAddressReplaced(s: string)
    requires forall i :: 0 <= i < |s| ==> s[i] != '\\'
    ensures Defaulted(PyStr(s)) == DefaultAddress
  {
    NoBackslashRejected(s);
  }

  /** The arguments after defaulting, as they go into the message and the login. */
  datatype Message = Message(fromEmail: string, toEmail: string, subject: PyValue, body: PyValue, password: PyValue)

  /** `forward(...)`. `sendError` is what the SMTP exchange raised, None when the mail went out. */
  method Forward(toEmail: PyValue, subject: PyValue, body: PyValue, fromEmail: PyValue, password: PyValue,
                 sendError: Option<string>)
    returns (msg: Message, reply: string)
    ensures msg == Message(Defaulted(fromEmail), Defaulted(toEmail), NoneToEmpty(subject), NoneToEmpty(body),
      NoneToEmpty(password))
    ensures sendError.None? ==> reply == "Email sent to " + msg.toEmail + " successfully."
    ensures sendError.Some? ==> reply == "Failed to send email: " + sendError.value
  {
    var to, from, subj, text, pass := toEmail, fromEmail, subject, body, password;
    if !IsValidEmail(to) {
      to := PyStr(DefaultAddress);
    }
    if !IsValidEmail(from) {
      from := PyStr(DefaultAddress);
    }
    if subj.PyNone? {
      subj := PyStr("");
    }
    if text.PyNone? {
      text := PyStr("");
    }
    if pass.PyNone? {
      pass := PyStr("");
    }
    msg := Message(from.s, to.s, subj, text, pass);
    match sendError
    case None =>
      reply := "Email sent to " + to.s + " successfully.";
    case Some(e) =>
      reply := "Failed to send email: " + e;
  }
}
