/** Request authentication (src/middlewares/authMiddleware.ts): the token
    is the second space-separated field of the `Authorization` header; a
    missing or empty token stops the request with 401, a token the
    access-token key does not verify stops it with 403, and otherwise the
    decoded payload becomes `req.user` and the next handler runs once.
    Signature checking is the `verify` parameter. */
module AuthMiddleware {
  import opened Common

  /** `s.split(sep)` for a one-character separator: every occurrence of
      `sep` ends a field, so adjacent separators yield empty fields. */
  function Split(s: string, sep: char): (parts: seq<string>)
    ensures |parts| >= 1
    ensures |parts| == 1 <==> sep !in s
    decreases |s|
  {
    if s == [] then [[]]
    else
      var rest := Split(s[1..], sep);
      if s[0] == sep then [[]] + rest
      else [[s[0]] + rest[0]] + rest[1..]
  }

  /** No field of a split holds the separator. */
  lemma {:induction false} SplitFieldsLackSeparator(s: string, sep: char)
    ensures forall i :: 0 <= i < |Split(s, sep)| ==> sep !in Split(s, sep)[i]
    decreases |s|
  {
    if s != [] {
      SplitFieldsLackSeparator(s[1..], sep);
    }
  }

  /** `parts.join(sep)`, the inverse of `Split`. */
  function Join(parts: seq<string>, sep: char): string
    requires |parts| >= 1
    decreases |parts|
  {
    if |parts| == 1 then parts[0] else parts[0] + [sep] + Join(parts[1..], sep)
  }

  /** Joining after an empty first field starts with the separator. */
  lemma JoinEmptyFirst(rest: seq<string>, sep: char)
    requires |rest| >= 1
    ensures Join([[]] + rest, sep) == [sep] + Join(rest, sep)
  {
    assert ([[]] + rest)[1..] == rest;
  }

  /** Joining after a character is put in front of the first field
      starts with that character. */
  lemma JoinExtendFirst(c: char, rest: seq<string>, sep: char)
    requires |rest| >= 1
    ensures Join([[c] + rest[0]] + rest[1..], sep) == [c] + Join(rest, sep)
  {
    var parts := [[c] + rest[0]] + rest[1..];
    if |rest| > 1 {
      assert parts[1..] == rest[1..];
    }
  }

  /** Splitting loses nothing: joining the fields back gives the header. */
  lemma {:induction false} JoinSplit(s: string, sep: char)
    ensures Join(Split(s, sep), sep) == s
    decreases |s|
  {
    if s != [] {
      var rest := Split(s[1..], sep);
      JoinSplit(s[1..], sep);
      assert s == [s[0]] + s[1..];
      if s[0] == sep {
        JoinEmptyFirst(rest, sep);
      } else {
        JoinExtendFirst(s[0], rest, sep);
      }
    }
  }

  /** A prefix free of the separator extends the first field only. */
  lemma {:induction false} SplitAfterPlainPrefix(a: string, x: string, sep: char)
    requires sep !in a
    ensures Split(a + x, sep)[0] == a + Split(x, sep)[0]
    ensures Split(a + x, sep)[1..] == Split(x, sep)[1..]
    decreases |a|
  {
    if a != [] {
      assert (a + x)[1..] == a[1..] + x;
      SplitAfterPlainPrefix(a[1..], x, sep);
    } else {
      assert a + x == x;
    }
  }

  /** The decoded payload of an access token. */
  datatype Claims = Claims(userId: string)

  /** `req.headers.authorization?.split(" ")[1]`: the second field of the
      header, or `undefined` when there is no header or no space in it. */
  function BearerToken(header: Option<string>): (t: Option<string>)
    ensures t.None? <==> header.None? || ' ' !in header.value
    ensures t.Some? ==> ' ' !in t.value
  {
    if header.None? then None
    else
      var parts := Split(header.value, ' ');
      SplitFieldsLackSeparator(header.value, ' ');
      if |parts| > 1 then Some(parts[1]) else None
  }

  /** Whatever comes before the first space and whatever follows the
      token, the token is the field between the first and the second
      space: `"Bearer t"`, `"Bearer t extra"` and `"x t"` all give `t`,
      and `"Bearer  t"` gives the empty field. */
  lemma SecondFieldIsBearerToken(scheme: string, token: string, rest: string)
    requires SecondFieldOf(scheme + " " + token + rest, scheme, token, rest) && ' ' !in token
    ensures BearerToken(Some(scheme + " " + token + rest)) == Some(token)
  {
    var x := token + rest;
    var h := scheme + " " + token + rest;
    assert h == scheme + ([' '] + x);
    SplitAfterPlainPrefix(scheme, [' '] + x, ' ');
    assert ([' '] + x)[0] == ' ' && ([' '] + x)[1..] == x;
    assert Split([' '] + x, ' ') == [[]] + Split(x, ' ');
    SplitAfterPlainPrefix(token, rest, ' ');
    if rest != [] {
      assert rest[0] == ' ';
      assert Split(rest, ' ')[0] == [];
    }
    assert Split(x, ' ')[0] == token;
    assert Split(h, ' ')[1] == token;
  }

  /** `h` is a space-free scheme, one space, `token`, and then either
      nothing or a remainder that starts with a space. */
  predicate SecondFieldOf(h: string, scheme: string, token: string, rest: string)
  {
    ' ' !in scheme && (rest == [] || rest[0] == ' ') && h == scheme + " " + token + rest
  }

  /** Joining two or more fields puts the second one right after the
      first separator. */
  lemma JoinSecond(parts: seq<string>, sep: char)
    requires |parts| >= 2
    ensures Join(parts, sep) == parts[0] + [sep] + parts[1] +
      (if |parts| > 2 then [sep] + Join(parts[2..], sep) else [])
  {
    if |parts| > 2 {
      assert parts[1..][1..] == parts[2..];
    }
  }

  /** Conversely, a token found in a header is exactly the field after
      the first space. */
  lemma BearerTokenIsSecondField(h: string, token: string)
    requires BearerToken(Some(h)) == Some(token)
    ensures exists scheme, rest :: SecondFieldOf(h, scheme, token, rest)
  {
    var parts := Split(h, ' ');
    SplitFieldsLackSeparator(h, ' ');
    JoinSplit(h, ' ');
    JoinSecond(parts, ' ');
    var rest := if |parts| > 2 then [' '] + Join(parts[2..], ' ') else [];
    assert parts[0] in parts;
    assert SecondFieldOf(h, parts[0], token, rest);
  }

  /** What the middleware does with a request. */
  datatype AuthOutcome = Reject(status: nat) | Next(user: Claims)

  /** `authenticateJWT`. */
  function Authenticate(header: Option<string>, verify: string -> Option<Claims>): (r: AuthOutcome)
    ensures r == Reject(401) <==> BearerToken(header).None? || BearerToken(header) == Some("")
    ensures r == Reject(403) <==>
      exists t :: BearerToken(header) == Some(t) && t != "" && verify(t).None?
    ensures r.Next? ==>
      exists t :: BearerToken(header) == Some(t) && t != "" && verify(t) == Some(r.user)
    ensures r.Reject? ==> r.status == 401 || r.status == 403
  {
    match BearerToken(header)
    case None => Reject(401)
    case Some(t) =>
      if t == "" then Reject(401)
      else match verify(t)
        case None => Reject(403)
        case Some(claims) => Next(claims)
  }
}
