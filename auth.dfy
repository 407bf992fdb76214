/** The authentication middleware (server/src/middleware/auth.middleware.ts):
    a request passes with the id from a verified bearer token, or is turned
    away with 401 (no bearer header) or 403 (a token that does not verify).
    Token verification is a parameter. */
module Auth {
  import opened Outcomes
  import opened Records

  /** What the middleware does with a request: answer it, or hand it on
      with the caller's id attached. */
  datatype Decision = Deny(status: nat, message: string) | Next(userId: Id)

  predicate StartsWith(s: string, prefix: string) {
    |prefix| <= |s| && s[..|prefix|] == prefix
  }

  /** `s.split(c)`: the fields between the occurrences of `c`; n occurrences
      give n + 1 fields, some possibly empty. */
  function Split(s: string, c: char): (r: seq<string>)
    ensures |r| >= 1
    decreases |s|
  {
    if s == [] then [""]
    else
      var rest := Split(s[1..], c);
      if s[0] == c then [""] + rest else [[s[0]] + rest[0]] + rest[1..]
  }

  /** `fields.join(c)`. */
  function Join(fields: seq<string>, c: char): string
    requires |fields| >= 1
  {
    if |fields| == 1 then fields[0] else fields[0] + [c] + Join(fields[1..], c)
  }

  /** Joining the fields of a split gives back the text. */
  lemma {:induction false} JoinSplit(s: string, c: char)
    ensures Join(Split(s, c), c) == s
  {
    if s != [] {
      var rest := Split(s[1..], c);
      JoinSplit(s[1..], c);
      if s[0] != c && |rest| > 1 {
        assert Join(rest, c) == rest[0] + [c] + Join(rest[1..], c);
        assert ([[s[0]] + rest[0]] + rest[1..])[1..] == rest[1..];
      }
    }
  }

  /** No field of a split contains the separator. */
  lemma {:induction false} SplitFieldsFree(s: string, c: char)
    ensures forall i :: 0 <= i < |Split(s, c)| ==> c !in Split(s, c)[i]
  {
    if s != [] {
      SplitFieldsFree(s[1..], c);
    }
  }

  /** A first field `w` followed by the separator splits off as one field. */
  lemma {:induction false} SplitAfterField(w: string, c: char, rest: string)
    requires c !in w
    ensures Split(w + [c] + rest, c) == [w] + Split(rest, c)
    decreases |w|
  {
    var s := w + [c] + rest;
    if w == [] {
      assert s[1..] == rest;
    } else {
      assert s[1..] == w[1..] + [c] + rest;
      SplitAfterField(w[1..], c, rest);
      assert [w[0]] + w[1..] == w;
    }
  }

  /** The first field of a split is the text up to the first separator, or
      all of it when there is none. */
  lemma {:induction false} FirstField(s: string, c: char)
    ensures var f := Split(s, c)[0];
      && |f| <= |s| && f == s[..|f|] && c !in f
      && (|f| < |s| ==> s[|f|] == c)
  {
    if s != [] {
      FirstField(s[1..], c);
    }
  }

  /** `authHeader.split(' ')[1]`, for a header that starts with "Bearer ". */
  function BearerToken(header: string): string
    requires StartsWith(header, "Bearer ")
  {
    assert header == "Bearer" + [' '] + header[7..];
    SplitAfterField("Bearer", ' ', header[7..]);
    Split(header, ' ')[1]
  }

  /** The token is the text after "Bearer " up to the next space: a header
      "Bearer abc def" carries the token "abc". */
  lemma BearerTokenIsNextWord(header: string)
    requires StartsWith(header, "Bearer ")
    ensures var token, rest := BearerToken(header), header[7..];
      && |token| <= |rest| && token == rest[..|token|] && ' ' !in token
      && (|token| < |rest| ==> rest[|token|] == ' ')
  {
    assert header == "Bearer" + [' '] + header[7..];
    SplitAfterField("Bearer", ' ', header[7..]);
    FirstField(header[7..], ' ');
  }

  /** authMiddleware: `header` is the Authorization header, `verify` the
      token check (`None` when the token is invalid or expired). A request
      without a bearer header is a 401; a bearer token that does not verify
      is a 403; one that verifies passes with the id it carries, whichever
      kind of account it was signed for: no role is checked, so a
      participant's token passes as well as an administrator's. */
  function Authenticate(header: Option<string>, verify: string -> Option<Claims>): (d: Decision)
    ensures var bearer := header.Some? && StartsWith(header.value, "Bearer ");
      && (d == Deny(401, "Unauthorized: No token provided") <==> !bearer)
      && (d == Deny(403, "Forbidden: Invalid token") <==> bearer && verify(BearerToken(header.value)).None?)
      && (d.Next? <==> bearer && verify(BearerToken(header.value)).Some?)
      && (d.Next? ==> d.userId == verify(BearerToken(header.value)).value.id)
  {
    if header.None? || !StartsWith(header.value, "Bearer ") then Deny(401, "Unauthorized: No token provided")
    else match verify(BearerToken(header.value))
      case None => Deny(403, "Forbidden: Invalid token")
      case Some(claims) => Next(claims.id)
  }

  /** The 401 is decided before any token is verified: without a bearer
      header, any two verifiers give the same answer. */
  lemma NoBearerNeedsNoVerifier(header: Option<string>, verify: string -> Option<Claims>, other: string -> Option<Claims>)
    requires header.None? || !StartsWith(header.value, "Bearer ")
    ensures Authenticate(header, verify) == Authenticate(header, other) == Deny(401, "Unauthorized: No token provided")
  {
  }
}
