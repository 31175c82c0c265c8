/**
 * Text helpers with the meaning JavaScript gives them: `startsWith`,
 * `indexOf` and `split` with a non-empty separator.
 */
module Text {
  import opened Wrappers

  /** `s.startsWith(prefix)`. */
  function StartsWith(s: string, prefix: string): (b: bool)
    ensures b <==> |prefix| <= |s| && forall i :: 0 <= i < |prefix| ==> s[i] == prefix[i]
  {
    |prefix| <= |s| && s[..|prefix|] == prefix
  }

  /** `p` occurs in `s` starting at position `k`. */
  predicate OccursAt(s: string, p: string, k: int) {
    0 <= k && k + |p| <= |s| && s[k..k + |p|] == p
  }

  predicate Contains(s: string, p: string) {
    exists k :: 0 <= k <= |s| && OccursAt(s, p, k)
  }

  lemma OccursShift(s: string, p: string, k: int)
    requires |s| > 0 && 0 <= k
    ensures OccursAt(s, p, k + 1) <==> OccursAt(s[1..], p, k)
  {
    if k + 1 + |p| <= |s| {
      assert s[k + 1..k + 1 + |p|] == s[1..][k..k + |p|];
    }
  }

  /** `s.indexOf(p)`: the first position where `p` occurs, if any. */
  function IndexOf(s: string, p: string): (r: Option<nat>)
    requires p != []
    ensures r.Some? ==> OccursAt(s, p, r.value)
    ensures r.Some? ==> forall k :: 0 <= k < r.value ==> !OccursAt(s, p, k)
    ensures r.None? <==> !Contains(s, p)
    decreases |s|
  {
    if |s| < |p| then None
    else if s[..|p|] == p then
      assert OccursAt(s, p, 0);
      Some(0)
    else
      var rest := IndexOf(s[1..], p);
      assert forall k :: 0 <= k ==> (OccursAt(s, p, k + 1) <==> OccursAt(s[1..], p, k)) by {
        forall k | 0 <= k ensures OccursAt(s, p, k + 1) <==> OccursAt(s[1..], p, k) {
          OccursShift(s, p, k);
        }
      }
      if rest.None? then
        assert forall k :: !OccursAt(s, p, k) by {
          forall k ensures !OccursAt(s, p, k) {
            if k >= 1 { assert !OccursAt(s[1..], p, k - 1); }
          }
        }
        None
      else
        assert forall k :: 0 <= k < rest.value + 1 ==> !OccursAt(s, p, k) by {
          forall k | 0 <= k < rest.value + 1 ensures !OccursAt(s, p, k) {
            if k >= 1 { assert !OccursAt(s[1..], p, k - 1); }
          }
        }
        Some(rest.value + 1)
  }

  /** `s.split(sep)`: the pieces between successive occurrences of `sep`. */
  function Split(s: string, sep: string): (parts: seq<string>)
    requires sep != []
    ensures |parts| >= 1
    ensures |parts| > 1 <==> Contains(s, sep)
    decreases |s|
  {
    match IndexOf(s, sep)
    case None => [s]
    case Some(k) => [s[..k]] + Split(s[k + |sep|..], sep)
  }

  /** `parts.join(sep)`. */
  function Join(parts: seq<string>, sep: string): string
    requires |parts| >= 1
  {
    if |parts| == 1 then parts[0] else parts[0] + sep + Join(parts[1..], sep)
  }

  /** Splitting and joining again with the same separator gives back the text. */
  lemma {:induction false} JoinSplit(s: string, sep: string)
    requires sep != []
    ensures Join(Split(s, sep), sep) == s
    decreases |s|
  {
    match IndexOf(s, sep)
    case None =>
    case Some(k) =>
      var rest := s[k + |sep|..];
      var parts := Split(s, sep);
      assert parts == [s[..k]] + Split(rest, sep);
      assert parts[0] == s[..k] && parts[1..] == Split(rest, sep);
      JoinSplit(rest, sep);
      assert Join(parts, sep) == s[..k] + sep + Join(Split(rest, sep), sep);
      assert s == s[..k] + s[k..k + |sep|] + rest;
  }

  /** No piece of a split contains the separator. */
  lemma {:induction false} SplitPiecesFree(s: string, sep: string)
    requires sep != []
    ensures forall i :: 0 <= i < |Split(s, sep)| ==> !Contains(Split(s, sep)[i], sep)
    decreases |s|
  {
    match IndexOf(s, sep)
    case None =>
    case Some(k) =>
      var rest := s[k + |sep|..];
      SplitPiecesFree(rest, sep);
      var parts := Split(s, sep);
      assert parts == [s[..k]] + Split(rest, sep);
      forall j | OccursAt(s[..k], sep, j) ensures false {
        assert s[..k][j..j + |sep|] == s[j..j + |sep|];
        assert OccursAt(s, sep, j);
      }
      forall i | 0 <= i < |parts| ensures !Contains(parts[i], sep) {
        if i > 0 { assert parts[i] == Split(rest, sep)[i - 1]; }
      }
  }

  /** A text that does not contain the separator splits into itself. */
  lemma SplitWithoutSeparator(s: string, sep: string)
    requires sep != [] && !Contains(s, sep)
    ensures Split(s, sep) == [s]
  {
  }

  /**
   * A prefix that has no character of the separator's first kind, followed by
   * the separator, is split off as the first piece.
   */
  lemma SplitAfterPrefix(prefix: string, sep: string, rest: string)
    requires sep != [] && sep[0] !in prefix
    ensures Split(prefix + sep + rest, sep) == [prefix] + Split(rest, sep)
  {
    var s := prefix + sep + rest;
    assert OccursAt(s, sep, |prefix|) by {
      assert s[|prefix|..|prefix| + |sep|] == sep;
    }
    forall k | 0 <= k < |prefix| ensures !OccursAt(s, sep, k) {
      assert s[k] == prefix[k];
    }
    var i := IndexOf(s, sep);
    assert i == Some(|prefix|);
    assert s[..|prefix|] == prefix && s[|prefix| + |sep|..] == rest;
  }
}

/**
 * `parseAuthError` (context/AuthContext.tsx:166-179) turns a sign-in error into
 * the message shown to the user; the login page (pages/Login.tsx:63-64)
 * recognises the one encoded message, `DOMAIN_ERROR: <host>`, and reads the
 * host back out of it.
 */
module AuthErrors {
  import opened Wrappers
  import opened Text

  /** The error object: `code` and `message` may be absent. */
  datatype AuthError = AuthError(code: Option<string>, message: Option<string>)

  const UnauthorizedDomain := "auth/unauthorized-domain"
  const DomainErrorTag := "DOMAIN_ERROR"
  const Separator := ": "
  const DefaultMessage := "An authentication error occurred."

  /** The codes with a fixed message, and those messages. */
  const FixedMessages: map<string, string> := map[
    "auth/invalid-credential" := "Invalid email or password.",
    "auth/invalid-email" := "Invalid email address.",
    "auth/user-disabled" := "User account is disabled.",
    "auth/user-not-found" := "No account found with this email.",
    "auth/wrong-password" := "Incorrect password.",
    "auth/email-already-in-use" := "Email is already in use.",
    "auth/weak-password" := "Password is too weak."
  ]

  /** The code is neither the domain code nor one with a fixed message. */
  predicate UnknownCode(error: AuthError) {
    error.code.None? || (error.code.value != UnauthorizedDomain && error.code.value !in FixedMessages)
  }

  /** `error.message || "An authentication error occurred."` */
  function MessageOrDefault(error: AuthError): (r: string)
    ensures r != ""
    ensures error.message.Some? && error.message.value != "" ==> r == error.message.value
    ensures error.message.None? || error.message.value == "" ==> r == DefaultMessage
  {
    if error.message.Some? && error.message.value != "" then error.message.value else DefaultMessage
  }

  /**
   * `parseAuthError(error)`, first match wins; `hostname` stands for
   * `window.location.hostname`.
   */
  function ParseAuthError(error: AuthError, hostname: string): (r: string)
    ensures r != ""
    ensures error.code == Some(UnauthorizedDomain) ==> r == DomainErrorTag + Separator + hostname
    ensures error.code.Some? && error.code.value in FixedMessages ==> r == FixedMessages[error.code.value]
    ensures UnknownCode(error) ==> r == MessageOrDefault(error)
  {
    if error.code == Some("auth/unauthorized-domain") then "DOMAIN_ERROR: " + hostname
    else if error.code == Some("auth/invalid-credential") then "Invalid email or password."
    else if error.code == Some("auth/invalid-email") then "Invalid email address."
    else if error.code == Some("auth/user-disabled") then "User account is disabled."
    else if error.code == Some("auth/user-not-found") then "No account found with this email."
    else if error.code == Some("auth/wrong-password") then "Incorrect password."
    else if error.code == Some("auth/email-already-in-use") then "Email is already in use."
    else if error.code == Some("auth/weak-password") then "Password is too weak."
    else MessageOrDefault(error)
  }

  /** `error?.startsWith("DOMAIN_ERROR")` on the page's error state. */
  function IsDomainError(error: Option<string>): (b: bool)
    ensures b ==> error.Some?
    ensures error.Some? && StartsWith(error.value, DomainErrorTag + Separator) ==> b
    ensures error.Some? && error.value in FixedMessages.Values ==> !b
    ensures error == Some(DefaultMessage) ==> !b
  {
    FixedMessagesNotDomain();
    assert forall i :: 0 <= i < |DomainErrorTag| ==> (DomainErrorTag + Separator)[i] == DomainErrorTag[i];
    error.Some? && StartsWith(error.value, DomainErrorTag)
  }

  /**
   * `isDomainError ? error?.split(": ")[1] : ""`; `None` is the `undefined`
   * that indexing past the end of the pieces gives.
   */
  function CurrentDomain(error: Option<string>): (r: Option<string>)
    ensures !IsDomainError(error) ==> r == Some("")
    ensures IsDomainError(error) ==> (r.Some? <==> Contains(error.value, Separator))
  {
    if IsDomainError(error) then
      var parts := Split(error.value, Separator);
      if |parts| > 1 then Some(parts[1]) else None
    else Some("")
  }

  /** No fixed message and not the default message is read as a domain error. */
  lemma FixedMessagesNotDomain()
    ensures forall code :: code in FixedMessages ==> !StartsWith(FixedMessages[code], DomainErrorTag)
    ensures !StartsWith(DefaultMessage, DomainErrorTag)
  {
    forall code | code in FixedMessages ensures !StartsWith(FixedMessages[code], DomainErrorTag) {
      var m := FixedMessages[code];
      assert m[0] != 'D';
    }
    assert DefaultMessage[0] == 'A';
  }

  /**
   * The login page shows the domain help exactly for the domain code, or for an
   * unknown code whose own message happens to start with the tag.
   */
  lemma DomainErrorIff(error: AuthError, hostname: string)
    ensures IsDomainError(Some(ParseAuthError(error, hostname))) <==>
      error.code == Some(UnauthorizedDomain) ||
      (UnknownCode(error) && error.message.Some? && StartsWith(error.message.value, DomainErrorTag))
  {
    var r := ParseAuthError(error, hostname);
    FixedMessagesNotDomain();
    if error.code == Some(UnauthorizedDomain) {
      assert r[..|DomainErrorTag|] == DomainErrorTag;
    } else if error.code.Some? && error.code.value in FixedMessages {
      assert r == FixedMessages[error.code.value];
    }
  }

  /**
   * Round trip: for a host name without `": "`, the page reads back from the
   * encoded message exactly the host name.
   */
  lemma DomainRoundTrip(error: AuthError, hostname: string)
    requires error.code == Some(UnauthorizedDomain)
    requires !Contains(hostname, Separator)
    ensures CurrentDomain(Some(ParseAuthError(error, hostname))) == Some(hostname)
  {
    var r := ParseAuthError(error, hostname);
    assert r == DomainErrorTag + Separator + hostname;
    SplitAfterPrefix(DomainErrorTag, Separator, hostname);
    SplitWithoutSeparator(hostname, Separator);
    assert Split(r, Separator) == [DomainErrorTag, hostname];
    assert r[..|DomainErrorTag|] == DomainErrorTag;
  }

  /**
   * A host name that does contain `": "` is cut at its first occurrence: the
   * page reads back only the part before it.
   */
  lemma DomainRoundTripCutsAtSeparator(error: AuthError, before: string, after: string)
    requires error.code == Some(UnauthorizedDomain)
    requires ':' !in before
    ensures CurrentDomain(Some(ParseAuthError(error, before + Separator + after))) == Some(before)
  {
    var host := before + Separator + after;
    var r := ParseAuthError(error, host);
    assert r == DomainErrorTag + Separator + host;
    assert r[..|DomainErrorTag|] == DomainErrorTag;
    SplitAfterPrefix(DomainErrorTag, Separator, host);
    SplitAfterPrefix(before, Separator, after);
    var parts := Split(r, Separator);
    assert parts == [DomainErrorTag] + ([before] + Split(after, Separator));
    assert parts[1] == before;
  }
}
