/** What the page forms share: an error object keyed by field name, the clearing of a
    field's error when the user types into it, and the e-mail and password rules the
    sign-up and sign-in pages both apply. */
module Forms {
  import opened Wire
  import opened Text

  /** The `errors` state object: field name to message; a message of "" shows nothing. */
  type Errors = map<string, string>

  /** The page shows an error under `key`: the entry exists and is a non-empty string. */
  predicate Shows(e: Errors, key: string)
  {
    key in e && e[key] != ""
  }

  /** `if (msg) newErrors[key] = msg` */
  function Put(e: Errors, key: string, msg: Option<string>): (r: Errors)
    ensures msg.Some? ==> r == e[key := msg.value]
    ensures msg.None? ==> r == e
  {
    if msg.Some? then e[key := msg.value] else e
  }

  /** `if (errors[key]) setErrors({ ...errors, [key]: "" })`: a shown error under `key`
      is blanked, every other entry stays as it was. Each page declares its own form
      record with `With`, `Get` and `FieldName` over its own fields, and its `EditField`
      pairs `With` with this function; only the key passed here differs between pages. */
  function ClearError(e: Errors, key: string): (r: Errors)
    ensures !Shows(r, key)
    ensures r.Keys == e.Keys
    ensures forall k :: k in e && k != key ==> r[k] == e[k]
  {
    if Shows(e, key) then e[key := ""] else e
  }

  // ---------------------------------------------------------------------------
  // The e-mail pattern /\S+@\S+\.\S+/
  // ---------------------------------------------------------------------------

  /** The pattern matches with its `@` at `p` and its `.` at `q`: a non-white-space
      character right before the `@`, one or more non-white-space characters between
      the two, and a non-white-space character right after the `.`. */
  predicate Candidate(s: string, p: int, q: int)
  {
    && 0 < p && p + 1 < q && q + 1 < |s|
    && s[p] == '@' && s[q] == '.'
    && !IsWhitespace(s[p - 1]) && !IsWhitespace(s[q + 1])
    && forall k :: p < k < q ==> !IsWhitespace(s[k])
  }

  predicate MatchAt(s: string, q: int)
  {
    exists p :: 0 < p < q && Candidate(s, p, q)
  }

  /** `/\S+@\S+\.\S+/.test(s)`: the unanchored pattern matches somewhere in `s`. */
  predicate EmailLike(s: string)
  {
    exists q :: 0 <= q < |s| && MatchAt(s, q)
  }

  /** One left-to-right pass deciding the pattern: it tracks the current run of
      non-white-space characters and the first `@` in that run that has a character of
      the run before it, and accepts at the first `.` that completes a match. */
  method TestEmail(s: string) returns (b: bool)
    ensures b <==> EmailLike(s)
  {
    var runStart, at, i := 0, -1, 0;
    while i < |s|
      invariant 0 <= runStart <= i <= |s|
      invariant forall k :: runStart <= k < i ==> !IsWhitespace(s[k])
      invariant runStart > 0 ==> IsWhitespace(s[runStart - 1])
      invariant at == -1 ==> forall p :: runStart < p < i ==> s[p] != '@'
      invariant at != -1 ==> runStart < at < i && s[at] == '@'
      invariant at != -1 ==> forall p :: runStart < p < at ==> s[p] != '@'
      invariant forall q :: 0 <= q < i ==> !MatchAt(s, q)
    {
      if IsWhitespace(s[i]) {
        runStart, at := i + 1, -1;
      } else {
        if s[i] == '.' && at != -1 && at + 1 < i && i + 1 < |s| && !IsWhitespace(s[i + 1]) {
          assert Candidate(s, at, i);
          assert 0 <= i < |s| && MatchAt(s, i);
          return true;
        }
        NoMatchHere(s, runStart, at, i);
        if s[i] == '@' && at == -1 && i > runStart {
          at := i;
        }
      }
      i := i + 1;
    }
    return false;
  }

  /** When the pass does not accept at `i`, no match has its `.` at `i`: an `@` of a
      match lies in the current run after its start, so the first such `@` would have
      done as well. */
  lemma NoMatchHere(s: string, runStart: int, at: int, i: int)
    requires 0 <= runStart <= i < |s|
    requires forall k :: runStart <= k <= i ==> !IsWhitespace(s[k])
    requires runStart > 0 ==> IsWhitespace(s[runStart - 1])
    requires at == -1 ==> forall p :: runStart < p < i ==> s[p] != '@'
    requires at != -1 ==> runStart < at < i && s[at] == '@'
    requires at != -1 ==> forall p :: runStart < p < at ==> s[p] != '@'
    requires !(s[i] == '.' && at != -1 && at + 1 < i && i + 1 < |s| && !IsWhitespace(s[i + 1]))
    ensures !MatchAt(s, i)
  {
  }

  // ---------------------------------------------------------------------------
  // Rules shared by the sign-up and sign-in pages
  // ---------------------------------------------------------------------------

  const EmailRequired := "El email es obligatorio"
  const EmailInvalid := "El email no es válido"
  const PasswordRequired := "La contraseña es obligatoria"
  const PasswordShort := "La contraseña debe tener al menos 6 caracteres"

  /** A blank e-mail is missing; otherwise the untrimmed text must match the pattern. */
  function EmailError(email: string): (r: Option<string>)
    ensures r == None <==> !IsBlank(email) && EmailLike(email)
    ensures IsBlank(email) ==> r == Some(EmailRequired)
    ensures !IsBlank(email) && !EmailLike(email) ==> r == Some(EmailInvalid)
  {
    if Trim(email) == "" then Some(EmailRequired)
    else if !EmailLike(email) then Some(EmailInvalid)
    else None
  }

  /** A blank password is missing whatever its length; otherwise its untrimmed length
      must reach 6 code units. */
  function PasswordError(password: string): (r: Option<string>)
    ensures r == None <==> !IsBlank(password) && JsLength(password) >= 6
    ensures IsBlank(password) ==> r == Some(PasswordRequired)
    ensures !IsBlank(password) && JsLength(password) < 6 ==> r == Some(PasswordShort)
  {
    if Trim(password) == "" then Some(PasswordRequired)
    else if JsLength(password) < 6 then Some(PasswordShort)
    else None
  }

  /** A pattern match never uses white space, so trimming the text keeps it. */
  lemma EmailLikeTrimmed(s: string)
    requires EmailLike(s)
    ensures EmailLike(Trim(s))
  {
    var q :| 0 <= q < |s| && MatchAt(s, q);
    var p :| 0 < p < q && Candidate(s, p, q);
    CandidateTrimmed(s, p, q);
  }

  lemma CandidateTrimmed(s: string, p: int, q: int)
    requires Candidate(s, p, q)
    ensures EmailLike(Trim(s))
  {
    var lead := LeadingBlanks(s);
    var t := Trim(s);
    var hi := lead + |t|;
    // The match lies between the leading and the trailing white space.
    assert lead <= p - 1 && q + 1 < hi;
    CandidateInSlice(s, lead, hi, p, q);
    assert t == s[lead..hi];
    assert MatchAt(t, q - lead);
  }

  /** A match inside a slice is a match of the slice, shifted. */
  lemma CandidateInSlice(s: string, lo: int, hi: int, p: int, q: int)
    requires 0 <= lo <= p - 1 && q + 1 < hi <= |s|
    requires Candidate(s, p, q)
    ensures Candidate(s[lo..hi], p - lo, q - lo)
  {
    var t := s[lo..hi];
    forall k | p - lo < k < q - lo ensures !IsWhitespace(t[k]) {
      assert t[k] == s[k + lo];
    }
    assert t[p - lo] == s[p] && t[q - lo] == s[q] && t[p - lo - 1] == s[p - 1] && t[q - lo + 1] == s[q + 1];
  }
}
