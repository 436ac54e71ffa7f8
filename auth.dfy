/** The bearer-token middleware `authenticateToken` (server/server.js:108-123). */
module Auth {
  import opened Wrappers
  import opened Http

  /** Number of occurrences of `c` in `s`. */
  function Count(s: string, c: char): nat {
    if |s| == 0 then 0 else (if s[0] == c then 1 else 0) + Count(s[1..], c)
  }

  /** JavaScript `s.split(sep)` for a one-character separator: the pieces
      between separators, empty pieces included. */
  function Split(s: string, sep: char): (fields: seq<string>)
    ensures |fields| == Count(s, sep) + 1
    ensures forall i :: 0 <= i < |fields| ==> sep !in fields[i]
  {
    if |s| == 0 then [""]
    else
      var rest := Split(s[1..], sep);
      if s[0] == sep then [""] + rest
      else [[s[0]] + rest[0]] + rest[1..]
  }

  /** JavaScript `fields.join(sep)`. */
  function Join(fields: seq<string>, sep: char): string {
    if |fields| == 0 then ""
    else if |fields| == 1 then fields[0]
    else fields[0] + [sep] + Join(fields[1..], sep)
  }

  /** Joining the pieces of a split gives back the string. */
  lemma {:induction false} JoinSplit(s: string, sep: char)
    ensures Join(Split(s, sep), sep) == s
  {
    if |s| > 0 {
      var rest := Split(s[1..], sep);
      JoinSplit(s[1..], sep);
      if s[0] == sep {
        assert Split(s, sep)[1..] == rest;
      } else {
        var fs := Split(s, sep);
        if |rest| == 1 {
          assert fs == [[s[0]] + rest[0]];
        } else {
          assert fs[1..] == rest[1..];
          assert Join(rest, sep) == rest[0] + [sep] + Join(rest[1..], sep);
        }
        assert s == [s[0]] + s[1..];
      }
    }
  }

  /** Splitting a string whose first `|a|` characters hold no separator:
      `a` is glued to the front of the first piece of the remainder. */
  lemma {:induction false} SplitPrefix(a: string, t: string, sep: char)
    requires sep !in a
    ensures Split(a + t, sep) == [a + Split(t, sep)[0]] + Split(t, sep)[1..]
  {
    if |a| > 0 {
      assert (a + t)[1..] == a[1..] + t;
      SplitPrefix(a[1..], t, sep);
      var rest := Split(a[1..] + t, sep);
      assert Split(a + t, sep) == [[a[0]] + rest[0]] + rest[1..];
      assert rest[1..] == Split(t, sep)[1..];
      assert [a[0]] + rest[0] == a + Split(t, sep)[0] by {
        assert a == [a[0]] + a[1..];
      }
    } else {
      assert a + t == t;
      assert a + Split(t, sep)[0] == Split(t, sep)[0];
      assert Split(t, sep) == [Split(t, sep)[0]] + Split(t, sep)[1..];
    }
  }

  /** A character occurs in a string exactly when its count is positive. */
  lemma {:induction false} CountPositive(s: string, c: char)
    ensures c in s <==> Count(s, c) > 0
  {
    if |s| > 0 {
      CountPositive(s[1..], c);
      assert s == [s[0]] + s[1..];
    }
  }

  /** Splitting a join of separator-free pieces gives back the pieces. */
  lemma {:induction false} SplitJoin(fields: seq<string>, sep: char)
    requires |fields| >= 1
    requires forall i :: 0 <= i < |fields| ==> sep !in fields[i]
    ensures Split(Join(fields, sep), sep) == fields
  {
    if |fields| == 1 {
      SplitPrefix(fields[0], "", sep);
      assert fields[0] + "" == fields[0];
    } else {
      var tail := Join(fields[1..], sep);
      SplitJoin(fields[1..], sep);
      assert Split([sep] + tail, sep) == [""] + Split(tail, sep) by {
        assert ([sep] + tail)[1..] == tail;
      }
      assert fields[0] + [sep] + tail == fields[0] + ([sep] + tail);
      SplitPrefix(fields[0], [sep] + tail, sep);
      assert Split(Join(fields, sep), sep) == [fields[0] + ""] + Split(tail, sep);
      assert fields[0] + "" == fields[0];
      assert fields == [fields[0]] + fields[1..];
    }
  }

  /** `authHeader && authHeader.split(" ")[1]` (line 110): no header gives
      no token; the empty header is falsy and is itself the token; any
      other header gives its second space-separated field, if it has one. */
  function ExtractToken(header: Option<string>): (token: Option<string>)
    ensures token.None? <==> header.None? || (header.value != "" && ' ' !in header.value)
    ensures header == Some("") ==> token == Some("")
    ensures token.Some? ==> ' ' !in token.value
  {
    match header
    case None => None
    case Some(h) =>
      if h == "" then Some("")
      else
        var fields := Split(h, ' ');
        CountPositive(h, ' ');
        if |fields| >= 2 then Some(fields[1]) else None
  }

  /** A header `<scheme> <token>`, optionally followed by more space-separated
      text, yields exactly `<token>`. */
  lemma SecondField(scheme: string, token: string, rest: string)
    requires ' ' !in scheme && ' ' !in token
    requires rest == "" || rest[0] == ' '
    ensures ExtractToken(Some(scheme + " " + token + rest)) == Some(token)
  {
    var h := scheme + " " + token + rest;
    var after := token + rest;
    assert h == scheme + (" " + after);
    SplitPrefix(scheme, " " + after, ' ');
    assert (" " + after)[1..] == after;
    assert Split(" " + after, ' ') == [""] + Split(after, ' ');
    SplitPrefix(token, rest, ' ');
    if rest == "" {
      assert Split(rest, ' ') == [""];
      assert token + "" == token;
    } else {
      assert Split(rest, ' ') == [""] + Split(rest[1..], ' ');
      assert token + "" == token;
    }
  }

  /** What a valid token decodes to: `jwt.sign({ userId, name })` (line 202-203). */
  datatype Claims = Claims(userId: string, name: string)

  datatype AuthResult = Rejected(response: Response) | Authenticated(claims: Claims)

  /** The whole middleware; `verify` stands for `jwt.verify` with the server's
      secret and yields the claims or nothing. The protected handler runs
      only on `Authenticated`. */
  function Authenticate(header: Option<string>, verify: string -> Option<Claims>): (a: AuthResult)
    ensures a == Rejected(NoTokenProvided) <==> ExtractToken(header).None?
    ensures a == Rejected(InvalidToken) <==>
      ExtractToken(header).Some? && verify(ExtractToken(header).value).None?
    ensures a.Rejected? ==> a.response in {NoTokenProvided, InvalidToken}
    ensures a.Authenticated? ==>
      ExtractToken(header).Some? && verify(ExtractToken(header).value) == Some(a.claims)
  {
    match ExtractToken(header)
    case None => Rejected(NoTokenProvided)
    case Some(token) =>
      match verify(token)
      case None => Rejected(InvalidToken)
      case Some(claims) => Authenticated(claims)
  }

  /** A missing header, or one without a second field, is refused with 401
      whatever the verifier would say. */
  lemma NoSecondFieldRejected(header: Option<string>, verify: string -> Option<Claims>)
    requires header.None? || (header.value != "" && ' ' !in header.value)
    ensures Authenticate(header, verify) == Rejected(NoTokenProvided)
  {
  }
}
