/** `JWTAuthentication` of authors/apps/authentication/backends.py: the
    guard chain over the whitespace-split `Authorization` header, and the
    credential check behind it. Decoding the JWT is a parameter. */
module JwtBackend {
  import opened Wrappers
  import opened Text
  import Identity

  // ------------------------------------------------------- bytes.split()

  /** Length of the leading run of non-whitespace characters. */
  function WordLength(s: string): (n: nat)
    ensures n <= |s|
    ensures forall i :: 0 <= i < n ==> !IsSpace(s[i])
    ensures n < |s| ==> IsSpace(s[n])
  {
    if s == [] || IsSpace(s[0]) then 0 else 1 + WordLength(s[1..])
  }

  predicate IsWord(w: string)
  {
    |w| > 0 && forall i :: 0 <= i < |w| ==> !IsSpace(w[i])
  }

  /** `header.split()` with no separator: the maximal runs of
      non-whitespace, in order; runs of whitespace at either end or in
      between produce no empty parts. */
  function SplitWhitespace(s: string): (parts: seq<string>)
    ensures forall k :: 0 <= k < |parts| ==> IsWord(parts[k])
    ensures parts == [] <==> forall i :: 0 <= i < |s| ==> IsSpace(s[i])
    decreases |s|
  {
    if s == [] then []
    else if IsSpace(s[0]) then SplitWhitespace(s[1..])
    else
      var n := WordLength(s);
      [s[..n]] + SplitWhitespace(s[n..])
  }

  /** `b" ".join(words)`. */
  function JoinSpace(words: seq<string>): string
  {
    if words == [] then "" else if |words| == 1 then words[0] else words[0] + " " + JoinSpace(words[1..])
  }

  lemma WordThenRest(w: string, rest: string)
    requires IsWord(w) && (rest == [] || IsSpace(rest[0]))
    ensures SplitWhitespace(w + rest) == [w] + SplitWhitespace(rest)
  {
    var s := w + rest;
    assert WordLength(s) == |w| by { WordLengthOf(w, rest); }
    assert s[..|w|] == w && s[|w|..] == rest;
  }

  lemma {:induction false} WordLengthOf(w: string, rest: string)
    requires forall i :: 0 <= i < |w| ==> !IsSpace(w[i])
    requires rest == [] || IsSpace(rest[0])
    ensures WordLength(w + rest) == |w|
  {
    if w != [] {
      assert (w + rest)[1..] == w[1..] + rest;
      WordLengthOf(w[1..], rest);
    } else {
      assert w + rest == rest;
    }
  }

  /** Splitting undoes joining with single spaces: the parts of
      `"Token " + t` are `"Token"` and `t`, for any token without
      whitespace. */
  lemma {:induction false} SplitJoinSpace(words: seq<string>)
    requires forall k :: 0 <= k < |words| ==> IsWord(words[k])
    ensures SplitWhitespace(JoinSpace(words)) == words
  {
    if |words| == 1 {
      WordThenRest(words[0], "");
      assert words[0] + "" == words[0];
    } else if |words| > 1 {
      var tail := JoinSpace(words[1..]);
      SplitJoinSpace(words[1..]);
      assert words[0] + " " + tail == words[0] + (" " + tail);
      WordThenRest(words[0], " " + tail);
      assert (" " + tail)[1..] == tail;
    }
  }

  // ------------------------------------------------------------- authenticate

  /** `authentication_header_prefix`, and what `authenticate_header` sends
      back as the `WWW-Authenticate` challenge. */
  const HeaderPrefix := "Token"

  /** `authenticate_header`: the challenge names the scheme `authenticate`
      accepts. */
  function AuthenticateHeader(): (challenge: string)
    ensures ToLower(challenge) == "token"
  {
    HeaderPrefix
  }

  const DecodeFailedMessage := "Invalid authentication. Could not decode token."
  const NoSuchUserMessage := "No user matching this token was found."
  const DeactivatedMessage := "This user has been deactivated."

  /** What a call ends with: `None` (no credentials, left to other
      authenticators), `AuthenticationFailed(message)`, `(user, token)`, or
      the `KeyError` raised when the payload carries no `id`. */
  datatype AuthOutcome =
    | Anonymous
    | Failed(message: string)
    | Authenticated(user: Identity.Account, token: string)
    | MissingIdClaim

  /** `_authenticate_credentials`: `decode` is `jwt.decode` with the secret
      key, `users` the user table by primary key. */
  function AuthenticateCredentials(token: string, decode: string -> Option<map<string, int>>,
                                   users: map<int, Identity.Account>): (r: AuthOutcome)
    ensures r == Failed(DecodeFailedMessage) <==> decode(token).None?
    ensures r == MissingIdClaim <==> decode(token).Some? && "id" !in decode(token).value
    ensures r == Failed(NoSuchUserMessage) <==>
      decode(token).Some? && "id" in decode(token).value && decode(token).value["id"] !in users
    ensures r == Failed(DeactivatedMessage) <==>
      decode(token).Some? && "id" in decode(token).value && decode(token).value["id"] in users &&
      !users[decode(token).value["id"]].isActive
    ensures r.Authenticated? ==>
      decode(token).Some? && "id" in decode(token).value && decode(token).value["id"] in users &&
      r.user == users[decode(token).value["id"]] && r.user.isActive && r.token == token
    ensures r != Anonymous
  {
    match decode(token)
    case None => Failed(DecodeFailedMessage)
    case Some(payload) =>
      if "id" !in payload then MissingIdClaim
      else if payload["id"] !in users then Failed(NoSuchUserMessage)
      else if !users[payload["id"]].isActive then Failed(DeactivatedMessage)
      else Authenticated(users[payload["id"]], token)
  }

  /** `authenticate`, given the raw `Authorization` header. */
  function Authenticate(header: string, decode: string -> Option<map<string, int>>,
                        users: map<int, Identity.Account>): (r: AuthOutcome)
    ensures var parts := SplitWhitespace(header);
      r == Anonymous <==> |parts| != 2 || ToLower(parts[0]) != "token"
    ensures var parts := SplitWhitespace(header);
      r != Anonymous ==> r == AuthenticateCredentials(parts[1], decode, users)
    ensures r.Authenticated? ==> IsWord(r.token) && r.user.isActive
  {
    var parts := SplitWhitespace(header);
    if parts == [] then Anonymous
    else if |parts| == 1 then Anonymous
    else if |parts| > 2 then Anonymous
    else
      var prefix, token := parts[0], parts[1];
      if ToLower(prefix) != ToLower(HeaderPrefix) then Anonymous
      else AuthenticateCredentials(token, decode, users)
  }

  /** A lower-case letter has exactly two spellings that lower to it. */
  lemma LowerCharPreimage(c: char, d: char)
    requires IsLower(d)
    ensures ToLowerChar(c) == d <==> c == d || c as int == d as int - 32
  {
  }

  /** The letters of "token" and their capitals. */
  lemma TokenLetters()
    ensures |"token"| == 5 && |"TOKEN"| == 5
    ensures forall i :: 0 <= i < 5 ==> IsLower("token"[i]) && "TOKEN"[i] as int == "token"[i] as int - 32
  {
  }

  /** The prefix test is case-insensitive: it accepts exactly the
      five-letter spellings of "token" in any mix of cases. */
  lemma PrefixAccepted(prefix: string)
    ensures ToLower(prefix) == "token" <==>
      |prefix| == 5 && forall i :: 0 <= i < 5 ==> prefix[i] == "token"[i] || prefix[i] == "TOKEN"[i]
  {
    TokenLetters();
    if |prefix| == 5 {
      forall i | 0 <= i < 5
        ensures ToLower(prefix)[i] == "token"[i] <==> prefix[i] == "token"[i] || prefix[i] == "TOKEN"[i]
      {
        LowerCharPreimage(prefix[i], "token"[i]);
      }
      assert ToLower(prefix) == "token" <==> forall i :: 0 <= i < 5 ==> ToLower(prefix)[i] == "token"[i];
    }
  }

  /** A well-formed header, `"<prefix> <token>"` with a case variant of
      "Token", goes on to the credential check with the token unchanged. */
  lemma WellFormedHeader(prefix: string, token: string, decode: string -> Option<map<string, int>>,
                         users: map<int, Identity.Account>)
    requires ToLower(prefix) == "token" && IsWord(token)
    ensures Authenticate(prefix + " " + token, decode, users) == AuthenticateCredentials(token, decode, users)
  {
    assert IsWord(prefix) by { PrefixAccepted(prefix); }
    SplitJoinSpace([prefix, token]);
    assert JoinSpace([prefix, token]) == prefix + " " + token by {
      assert [prefix, token][1..] == [token];
    }
  }

  /** An empty header carries no credentials. */
  lemma EmptyHeaderAnonymous(decode: string -> Option<map<string, int>>, users: map<int, Identity.Account>)
    ensures Authenticate("", decode, users) == Anonymous
  {
  }

  /** A prefix without a token carries no credentials. */
  lemma PrefixOnlyAnonymous(decode: string -> Option<map<string, int>>, users: map<int, Identity.Account>)
    ensures Authenticate("Token ", decode, users) == Anonymous
  {
    assert "Token" + " " == "Token ";
    WordThenRest("Token", " ");
    assert SplitWhitespace(" ") == [] by {
      assert " "[1..] == "";
    }
  }

  /** A token with a space in it makes three parts and no credentials. */
  lemma ThreePartsAnonymous(decode: string -> Option<map<string, int>>, users: map<int, Identity.Account>)
    ensures Authenticate("Token a b", decode, users) == Anonymous
  {
    var words := ["Token", "a", "b"];
    assert JoinSpace(words) == "Token a b" by {
      assert words[1..] == ["a", "b"];
      assert JoinSpace(["a", "b"]) == "a b" by { assert ["a", "b"][1..] == ["b"]; }
    }
    SplitJoinSpace(words);
  }

  /** Another scheme than "Token" carries no credentials. */
  lemma OtherSchemeAnonymous(decode: string -> Option<map<string, int>>, users: map<int, Identity.Account>)
    ensures Authenticate("Bearer abc", decode, users) == Anonymous
  {
    var words := ["Bearer", "abc"];
    assert JoinSpace(words) == "Bearer abc" by {
      assert words[1..] == ["abc"];
    }
    SplitJoinSpace(words);
    assert ToLower("Bearer")[0] == 'b';
  }
}
