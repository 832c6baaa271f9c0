/** The per-field rule of the contact form (validateField in script.js): a
    fixed-precedence chain over the trimmed value that picks at most one error
    message, together with the two patterns it consults, isValidEmail and
    containsSuspiciousContent. */
module Rules {
  import opened Options
  import opened Text

  const RequiredMessage := "This field is required"
  const EmailMessage := "Please enter a valid email address"
  const MessageTooLong := "Message is too long (max 500 characters)"
  const InputTooLong := "Input is too long (max 100 characters)"
  const InvalidCharacters := "Invalid characters detected"

  const MaxMessageLength := 500
  const MaxInputLength := 100

  /** The tag of a validated control: the form validates INPUT and TEXTAREA elements. */
  datatype Tag = Input | TextArea

  /** The length limit that applies to a tag, and the message that reports it. */
  function MaxLength(tag: Tag): nat {
    match tag
    case Input => MaxInputLength
    case TextArea => MaxMessageLength
  }

  function TooLongMessage(tag: Tag): string {
    match tag
    case Input => InputTooLong
    case TextArea => MessageTooLong
  }

  // ---------------------------------------------------------------------------
  // isValidEmail: /^[^\s@]+@[^\s@]+\.[^\s@]+$/

  /** One run of the class [^\s@]+: non-empty, no whitespace, no '@'. */
  predicate IsAtom(s: string) {
    s != [] && forall k | 0 <= k < |s| :: !IsWhitespace(s[k]) && s[k] != '@'
  }

  /** `s` splits as atom '@' atom '.' atom, with the '@' at `at` and the '.' at `dot`. */
  ghost predicate EmailSplit(s: string, at: int, dot: int) {
    && 0 < at && at + 1 < dot && dot + 1 < |s|
    && s[at] == '@' && s[dot] == '.'
    && IsAtom(s[..at]) && IsAtom(s[at + 1..dot]) && IsAtom(s[dot + 1..])
  }

  /** What the anchored regex accepts: some way of splitting `s` into its three runs. */
  ghost predicate MatchesEmailPattern(s: string) {
    exists at, dot :: EmailSplit(s, at, dot)
  }

  /** isValidEmail, decided without a regex engine: no whitespace anywhere, the
      first '@' is not at the start and no other '@' follows it, and the domain
      after it holds a '.' with at least one character on each side. */
  predicate IsValidEmail(s: string) {
    match IndexOf(s, '@')
    case None => false
    case Some(at) =>
      var domain := s[at + 1..];
      && 0 < at
      && (forall k | 0 <= k < |s| :: !IsWhitespace(s[k]))
      && '@' !in domain
      && 3 <= |domain|
      && '.' in domain[1..|domain| - 1]
  }

  /** IsValidEmail accepts exactly the strings the email regex matches. */
  lemma {:induction false} IsValidEmailMatchesPattern(s: string)
    ensures IsValidEmail(s) <==> MatchesEmailPattern(s)
  {
    if IsValidEmail(s) {
      ValidEmailSplits(s);
    }
    if MatchesEmailPattern(s) {
      var at, dot :| EmailSplit(s, at, dot);
      SplitIsValidEmail(s, at, dot);
    }
  }

  /** A string IsValidEmail accepts splits as the regex requires. */
  lemma {:induction false} ValidEmailSplits(s: string)
    requires IsValidEmail(s)
    ensures MatchesEmailPattern(s)
  {
    var at := IndexOf(s, '@').value;
    var domain := s[at + 1..];
    var inner := domain[1..|domain| - 1];
    var m :| 0 <= m < |inner| && inner[m] == '.';
    var dot := at + 2 + m;
    assert s[dot] == '.';
    assert IsAtom(s[..at]) by {
      forall k | 0 <= k < at ensures s[..at][k] != '@' && !IsWhitespace(s[..at][k]) {
        assert s[..at][k] in s[..at];
      }
    }
    var host, tld := s[at + 1..dot], s[dot + 1..];
    assert IsAtom(host) by {
      forall k | 0 <= k < |host| ensures host[k] != '@' {
        assert host[k] == domain[k];
        assert domain[k] in domain;
      }
    }
    assert IsAtom(tld) by {
      forall k | 0 <= k < |tld| ensures tld[k] != '@' {
        assert tld[k] == domain[dot - at + k];
        assert domain[dot - at + k] in domain;
      }
    }
    assert EmailSplit(s, at, dot);
  }

  /** A string the regex matches passes every test of IsValidEmail. */
  lemma {:induction false} SplitIsValidEmail(s: string, at: int, dot: int)
    requires EmailSplit(s, at, dot)
    ensures IsValidEmail(s)
  {
    AtIsFirst(s, at, dot);
    var domain := s[at + 1..];
    VisibleAsciiIsNotWhitespace('@');
    VisibleAsciiIsNotWhitespace('.');
    assert forall k | 0 <= k < |s| :: !IsWhitespace(s[k]) by {
      forall k | 0 <= k < |s| ensures !IsWhitespace(s[k]) {
        if k < at {
          assert s[..at][k] == s[k];
        } else if at < k < dot {
          assert s[at + 1..dot][k - at - 1] == s[k];
        } else if dot < k {
          assert s[dot + 1..][k - dot - 1] == s[k];
        }
      }
    }
    assert '@' !in domain by {
      forall k | 0 <= k < |domain| ensures domain[k] != '@' {
        if at + 1 + k < dot {
          assert s[at + 1..dot][k] == domain[k];
        } else if at + 1 + k > dot {
          assert s[dot + 1..][at + k - dot] == domain[k];
        }
      }
    }
    assert domain[1..|domain| - 1][dot - at - 2] == '.';
  }

  /** In a split the '@' is the first one of the string. */
  lemma AtIsFirst(s: string, at: int, dot: int)
    requires EmailSplit(s, at, dot)
    ensures IndexOf(s, '@') == Some(at)
  {
    assert '@' !in s[..at] by {
      forall k | 0 <= k < at ensures s[..at][k] != '@' { }
    }
    var r := IndexOf(s, '@');
    assert r.Some?;
    assert r.value >= at by {
      assert forall k | 0 <= k < at :: s[k] == s[..at][k];
    }
    assert r.value <= at by {
      assert forall k | 0 <= k < r.value :: s[k] == s[..r.value][k];
    }
  }

  // ---------------------------------------------------------------------------
  // containsSuspiciousContent: /<script|javascript:|onerror=|onclick=|<iframe/i

  /** The blocked tokens, in lower case. */
  const SuspiciousTokens: seq<string> := ["<script", "javascript:", "onerror=", "onclick=", "<iframe"]

  /** containsSuspiciousContent: some blocked token occurs in the ASCII-lower-cased text.
      Without the u flag, the i flag never folds a non-ASCII character onto an ASCII
      one, and every blocked token is ASCII, so ASCII folding is the whole of it. */
  predicate ContainsSuspiciousContent(text: string) {
    var lower := LowerAscii(text);
    exists k | 0 <= k < |SuspiciousTokens| :: Contains(lower, SuspiciousTokens[k])
  }

  /** `token` occurs at position `i` of `text`, comparing characters up to ASCII case. */
  ghost predicate OccursIgnoringCaseAt(text: string, token: string, i: int) {
    && 0 <= i && i + |token| <= |text|
    && forall j | 0 <= j < |token| :: FoldAscii(text[i + j]) == FoldAscii(token[j])
  }

  /** The reading of the case-insensitive alternation: some blocked token occurs somewhere. */
  ghost predicate HasBlockedToken(text: string) {
    exists k, i :: 0 <= k < |SuspiciousTokens| && OccursIgnoringCaseAt(text, SuspiciousTokens[k], i)
  }

  predicate IsLowerAscii(t: string) {
    forall j | 0 <= j < |t| :: FoldAscii(t[j]) == t[j]
  }

  lemma TokensAreLowerCase()
    ensures forall k | 0 <= k < |SuspiciousTokens| :: IsLowerAscii(SuspiciousTokens[k])
  {
    assert IsLowerAscii("<script");
    assert IsLowerAscii("javascript:");
    assert IsLowerAscii("onerror=");
    assert IsLowerAscii("onclick=");
    assert IsLowerAscii("<iframe");
  }

  /** For a lower-case token, searching the folded text is matching up to case. */
  lemma {:induction false} FoldedOccurrence(text: string, token: string, i: int)
    requires IsLowerAscii(token)
    ensures OccursAt(LowerAscii(text), token, i) <==> OccursIgnoringCaseAt(text, token, i)
  {
    var lower := LowerAscii(text);
    if 0 <= i && i + |token| <= |text| {
      if OccursIgnoringCaseAt(text, token, i) {
        forall j | 0 <= j < |token| ensures lower[i..i + |token|][j] == token[j] { }
        assert lower[i..i + |token|] == token;
      }
      if OccursAt(lower, token, i) {
        forall j | 0 <= j < |token| ensures FoldAscii(text[i + j]) == FoldAscii(token[j]) {
          assert lower[i..i + |token|][j] == token[j];
        }
      }
    }
  }

  /** containsSuspiciousContent holds exactly when a blocked token occurs, ignoring ASCII case. */
  lemma {:induction false} SuspiciousIffBlockedToken(text: string)
    ensures ContainsSuspiciousContent(text) <==> HasBlockedToken(text)
  {
    var lower := LowerAscii(text);
    TokensAreLowerCase();
    forall k | 0 <= k < |SuspiciousTokens|
      ensures Contains(lower, SuspiciousTokens[k])
          <==> exists i :: OccursIgnoringCaseAt(text, SuspiciousTokens[k], i)
    {
      var t := SuspiciousTokens[k];
      ContainsIff(lower, t);
      forall i ensures OccursAt(lower, t, i) <==> OccursIgnoringCaseAt(text, t, i) {
        FoldedOccurrence(text, t, i);
      }
    }
  }

  // ---------------------------------------------------------------------------
  // validateField's choice of message

  /** The message validateField shows for a control holding `value`, or None when
      it accepts it. Checks go in order and the first that fires wins; all of them
      look at the trimmed value. */
  function ChooseError(value: string, required: bool, isEmail: bool, tag: Tag): Option<string> {
    var v := Trim(value);
    if required && v == [] then Some(RequiredMessage)
    else if isEmail && v != [] then
      if !IsValidEmail(v) then Some(EmailMessage) else None
    else if v != [] then
      if Utf16Length(v) > MaxMessageLength && tag == TextArea then Some(MessageTooLong)
      else if Utf16Length(v) > MaxInputLength && tag == Input then Some(InputTooLong)
      else if ContainsSuspiciousContent(v) then Some(InvalidCharacters)
      else None
    else None
  }

  /** The five messages a field can show. */
  predicate IsMessage(m: string) {
    m in {RequiredMessage, EmailMessage, MessageTooLong, InputTooLong, InvalidCharacters}
  }

  /** Every chosen error is one of the five fixed messages. */
  lemma ChosenErrorIsMessage(value: string, required: bool, isEmail: bool, tag: Tag)
    ensures ChooseError(value, required, isEmail, tag).Some? ==>
              IsMessage(ChooseError(value, required, isEmail, tag).value)
  {
  }

  /** "This field is required" is shown exactly for a required field whose value is
      blank (all whitespace), whatever its type or tag. */
  lemma RequiredIffBlank(value: string, required: bool, isEmail: bool, tag: Tag)
    ensures ChooseError(value, required, isEmail, tag) == Some(RequiredMessage)
        <==> required && AllWhitespace(value)
  {
    TrimEmptyIff(value);
  }

  /** A field that is not required and whose value is blank always passes. */
  lemma OptionalBlankPasses(value: string, isEmail: bool, tag: Tag)
    requires AllWhitespace(value)
    ensures ChooseError(value, false, isEmail, tag) == None
  {
    TrimEmptyIff(value);
  }

  /** An email field with a non-blank value fails only for a bad address, and fails
      exactly when its trimmed value does not match the email regex: no length or
      content check ever applies to it. */
  lemma EmailFieldOutcome(value: string, required: bool, tag: Tag)
    requires !AllWhitespace(value)
    ensures ChooseError(value, required, true, tag) == None <==> MatchesEmailPattern(Trim(value))
    ensures ChooseError(value, required, true, tag) in {None, Some(EmailMessage)}
  {
    TrimEmptyIff(value);
    IsValidEmailMatchesPattern(Trim(value));
  }

  /** For any other field with a non-blank value, the length error of its tag is
      chosen exactly when the trimmed value has more UTF-16 code units than the
      tag allows; the other tag's length error never is. */
  lemma LengthLimit(value: string, required: bool, tag: Tag)
    requires !AllWhitespace(value)
    ensures ChooseError(value, required, false, tag) == Some(TooLongMessage(tag))
        <==> Utf16Length(Trim(value)) > MaxLength(tag)
    ensures ChooseError(value, required, false, tag)
        != Some(TooLongMessage(if tag == Input then TextArea else Input))
  {
    TrimEmptyIff(value);
  }

  /** Within its length limit, a non-email field with a non-blank value fails with
      "Invalid characters detected" exactly when a blocked token occurs in it
      (ignoring ASCII case), and passes otherwise. */
  lemma ContentCheck(value: string, required: bool, tag: Tag)
    requires !AllWhitespace(value)
    requires Utf16Length(Trim(value)) <= MaxLength(tag)
    ensures ChooseError(value, required, false, tag)
         == if HasBlockedToken(Trim(value)) then Some(InvalidCharacters) else None
  {
    TrimEmptyIff(value);
    SuspiciousIffBlockedToken(Trim(value));
  }

  /** Whitespace around a value never changes the outcome. */
  lemma PaddingIsIgnored(pre: string, value: string, post: string, required: bool, isEmail: bool, tag: Tag)
    requires AllWhitespace(pre) && AllWhitespace(post)
    ensures ChooseError(pre + value + post, required, isEmail, tag) == ChooseError(value, required, isEmail, tag)
  {
    TrimPadded(pre, value, post);
  }

  // ---------------------------------------------------------------------------
  // Concrete cases

  /** An email field whose value has no '@' at all is refused as an address. */
  lemma AddressWithoutAtIsRefused(value: string, required: bool, tag: Tag)
    requires !AllWhitespace(value) && '@' !in value
    ensures ChooseError(value, required, true, tag) == Some(EmailMessage)
  {
    EmailFieldOutcome(value, required, tag);
    var i, j := TrimBounds(value);
    var v := Trim(value);
    assert '@' !in v by {
      forall k | 0 <= k < |v| ensures v[k] != '@' {
        assert v[k] == value[i + k];
      }
    }
  }

  /** An email field holding "not-an-email" is refused as an address. */
  lemma NotAnEmailIsRefused(required: bool)
    ensures ChooseError("not-an-email", required, true, Input) == Some(EmailMessage)
  {
    var v := "not-an-email";
    VisibleAsciiIsNotWhitespace(v[0]);
    AddressWithoutAtIsRefused(v, required, Input);
  }

  /** A textarea holding 501 letters is too long. */
  lemma LongMessageIsRefused(required: bool)
    ensures ChooseError(seq(501, _ => 'a'), required, false, TextArea) == Some(MessageTooLong)
  {
    var v: string := seq(501, _ => 'a');
    VisibleAsciiIsNotWhitespace('a');
    TrimKeeps(v);
  }

  /** An input holding a script tag is refused for its content. */
  lemma ScriptTagIsRefused(v: string, required: bool)
    requires v == "<script>alert(1)</script>"
    ensures ChooseError(v, required, false, Input) == Some(InvalidCharacters)
  {
    ScriptTagFacts(v);
    ContentCheck(v, required, Input);
  }

  lemma ScriptTagFacts(v: string)
    requires v == "<script>alert(1)</script>"
    ensures !AllWhitespace(v) && Trim(v) == v
    ensures Utf16Length(v) <= MaxInputLength && HasBlockedToken(v)
  {
    VisibleAsciiIsNotWhitespace(v[0]);
    VisibleAsciiIsNotWhitespace(v[|v| - 1]);
    TrimKeeps(v);
    assert Utf16Length(v) <= 2 * |v|;
    assert v[..7] == SuspiciousTokens[0];
    assert OccursIgnoringCaseAt(v, SuspiciousTokens[0], 0);
  }

  /** An email field never reaches the content check: a well-formed address is
      accepted even when it carries a blocked token. */
  lemma EmailSkipsContentCheck(value: string, required: bool, tag: Tag)
    requires MatchesEmailPattern(Trim(value))
    ensures ChooseError(value, required, true, tag) == None
  {
    assert !AllWhitespace(value) by {
      TrimEmptyIff(value);
      var v := Trim(value);
      assert v != [] by {
        var at, dot :| EmailSplit(v, at, dot);
      }
    }
    EmailFieldOutcome(value, required, tag);
  }

  /** "<script@x.io" is such an address: EmailSkipsContentCheck accepts it in an
      email field, and the content check would have refused it anywhere else. */
  lemma ScriptAddressBypassesContentCheck(v: string)
    requires v == "<script@x.io"
    ensures MatchesEmailPattern(Trim(v)) && ContainsSuspiciousContent(Trim(v))
  {
    SampleAddressMatches(v);
    SampleAddressIsSuspicious(v);
  }

  lemma SampleAddressIsSuspicious(v: string)
    requires v == "<script@x.io"
    ensures ContainsSuspiciousContent(v)
  {
    assert v[..7] == SuspiciousTokens[0];
    assert OccursIgnoringCaseAt(v, SuspiciousTokens[0], 0);
    SuspiciousIffBlockedToken(v);
  }

  lemma SampleAddressMatches(v: string)
    requires v == "<script@x.io"
    ensures Trim(v) == v && MatchesEmailPattern(v)
  {
    assert forall k | 0 <= k < |v| :: 0x21 <= v[k] as int <= 0x7E;
    forall k | 0 <= k < |v| ensures !IsWhitespace(v[k]) {
      VisibleAsciiIsNotWhitespace(v[k]);
    }
    TrimKeeps(v);
    assert EmailSplit(v, 7, 9);
  }
}
