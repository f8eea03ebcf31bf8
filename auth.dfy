/** The authorization middlewares: the "Bearer <token>" header check in front of the token parser,
    and the ADMIN gate. The token parser is a parameter: it is an outside library call. */
module Auth {
  import opened Domain

  /** What a parsed token carries. */
  datatype Claims = Claims(userId: string, role: string)

  /** An error response: HTTP status, error code and message. */
  datatype Response = Response(status: int, code: string, message: string)

  /** A middleware either answers the request itself, or calls the next handler with the values
      it put in the request context. */
  datatype Outcome<+C> = Respond(response: Response) | Next(context: C)

  const StatusUnauthorized: int := 401
  const StatusForbidden: int := 403

  const MissingHeader: Response := Response(StatusUnauthorized, "UNAUTHORIZED", "Missing authorization header")
  const InvalidFormat: Response := Response(StatusUnauthorized, "UNAUTHORIZED", "Invalid authorization format")
  const InvalidToken: Response := Response(StatusUnauthorized, "UNAUTHORIZED", "Invalid token")
  const AdminRequired: Response := Response(StatusForbidden, "FORBIDDEN", "Admin access required")

  function CountSpaces(s: string): nat {
    if s == [] then 0 else (if s[0] == ' ' then 1 else 0) + CountSpaces(s[1..])
  }

  /** Splitting on " ": the pieces between the spaces, `n` spaces giving `n + 1` pieces (empty
      pieces included), none of which holds a space. */
  function SplitOnSpace(s: string): (parts: seq<string>)
    ensures |parts| == CountSpaces(s) + 1
    ensures forall i | 0 <= i < |parts| :: ' ' !in parts[i]
  {
    if s == [] then [""]
    else
      var rest := SplitOnSpace(s[1..]);
      if s[0] == ' ' then [""] + rest
      else [[s[0]] + rest[0]] + rest[1..]
  }

  /** Joins pieces back with one space between neighbours. */
  function JoinWithSpace(parts: seq<string>): string
    requires |parts| >= 1
  {
    if |parts| == 1 then parts[0] else parts[0] + " " + JoinWithSpace(parts[1..])
  }

  /** Splitting loses nothing: joining the pieces gives the header back. */
  lemma {:induction false} JoinSplit(s: string)
    ensures JoinWithSpace(SplitOnSpace(s)) == s
  {
    if s != [] {
      JoinSplit(s[1..]);
      var rest := SplitOnSpace(s[1..]);
      if s[0] == ' ' {
        assert s == " " + s[1..];
      } else if |rest| == 1 {
        assert s == [s[0]] + s[1..];
      } else {
        assert JoinWithSpace(rest) == rest[0] + " " + JoinWithSpace(rest[1..]);
        assert s == [s[0]] + s[1..];
      }
    }
  }

  lemma {:induction false} NoSpaceCount(s: string)
    ensures CountSpaces(s) == 0 <==> ' ' !in s
  {
    if s != [] {
      NoSpaceCount(s[1..]);
      assert s == [s[0]] + s[1..];
    }
  }

  /** A word without spaces followed by a space splits off as the first piece. */
  lemma {:induction false} SplitAfterWord(w: string, t: string)
    requires ' ' !in w
    ensures SplitOnSpace(w + " " + t) == [w] + SplitOnSpace(t)
  {
    if w == [] {
      assert w + " " + t == [' '] + t;
      assert ([' '] + t)[1..] == t;
    } else {
      SplitAfterWord(w[1..], t);
      var s := w + " " + t;
      assert s[0] == w[0] && s[1..] == w[1..] + " " + t;
      assert w == [w[0]] + w[1..];
    }
  }

  /** The position of the first space. */
  lemma {:induction false} FirstSpace(s: string) returns (k: nat)
    requires ' ' in s
    ensures k < |s| && s[k] == ' ' && ' ' !in s[..k]
  {
    if s[0] == ' ' {
      k := 0;
    } else {
      var k' := FirstSpace(s[1..]);
      k := k' + 1;
      assert s[..k] == [s[0]] + s[1..][..k'];
    }
  }

  /** A header with exactly one space, "Bearer" before it. */
  predicate IsBearerHeader(h: string) {
    |h| >= 7 && h[..7] == "Bearer " && ' ' !in h[7..]
  }

  /** The split gives exactly the two pieces "Bearer" and a token iff the header is "Bearer "
      followed by a token without spaces, and the token is the text after the space. */
  lemma BearerSplit(h: string)
    ensures var parts := SplitOnSpace(h);
      (|parts| == 2 && parts[0] == "Bearer") <==> IsBearerHeader(h)
    ensures IsBearerHeader(h) ==> SplitOnSpace(h) == ["Bearer", h[7..]]
  {
    var parts := SplitOnSpace(h);
    if IsBearerHeader(h) {
      assert h == "Bearer" + " " + h[7..];
      SplitAfterWord("Bearer", h[7..]);
      NoSpaceCount(h[7..]);
      assert SplitOnSpace(h[7..]) == [h[7..]] by {
        JoinSplit(h[7..]);
      }
    } else if |parts| == 2 && parts[0] == "Bearer" {
      NoSpaceCount(h);
      var k := FirstSpace(h);
      assert h == h[..k] + " " + h[k + 1..];
      SplitAfterWord(h[..k], h[k + 1..]);
      assert h[..k] == "Bearer";
      NoSpaceCount(h[k + 1..]);
      assert false;
    }
  }

  /** AuthMiddleware: the header must be present, split on " " into exactly "Bearer" and a token,
      and the token must parse; the context then holds the claims' user id and role. */
  function AuthMiddleware(header: string, parseJwt: string -> Option<Claims>): (o: Outcome<Claims>)
    ensures header == "" ==> o == Respond(MissingHeader)
  {
    if header == "" then Respond(MissingHeader)
    else
      var parts := SplitOnSpace(header);
      if |parts| != 2 || parts[0] != "Bearer" then Respond(InvalidFormat)
      else
        match parseJwt(parts[1])
        case None => Respond(InvalidToken)
        case Some(claims) => Next(Claims(claims.userId, claims.role))
  }

  /** The complete behaviour: which response each header gets, that the token handed to the
      parser is exactly the text after the space (the empty text for "Bearer "), and that the
      next handler runs exactly when the header is well formed and the token parses. */
  lemma AuthMiddlewareSpec(header: string, parseJwt: string -> Option<Claims>)
    ensures var o := AuthMiddleware(header, parseJwt);
      && (header == "" ==> o == Respond(MissingHeader))
      && (header != "" && !IsBearerHeader(header) ==> o == Respond(InvalidFormat))
      && (IsBearerHeader(header) && parseJwt(header[7..]).None? ==> o == Respond(InvalidToken))
      && (IsBearerHeader(header) && parseJwt(header[7..]).Some? ==> o == Next(parseJwt(header[7..]).value))
      && (o.Next? <==> IsBearerHeader(header) && parseJwt(header[7..]).Some?)
  {
    BearerSplit(header);
  }

  /** The scheme is compared case-sensitively. */
  lemma LowerCaseSchemeRejected(parseJwt: string -> Option<Claims>)
    ensures AuthMiddleware("bearer abc", parseJwt) == Respond(InvalidFormat)
  {
    var h := "bearer abc";
    AuthMiddlewareSpec(h, parseJwt);
    assert h[..7][0] == 'b';
  }

  /** A second space gives more than two pieces, so the format is invalid. */
  lemma SecondSpaceRejected(parseJwt: string -> Option<Claims>)
    ensures AuthMiddleware("Bearer a b", parseJwt) == Respond(InvalidFormat)
  {
    var h := "Bearer a b";
    AuthMiddlewareSpec(h, parseJwt);
    assert h[7..][1] == ' ';
  }

  /** "Bearer " is well formed: the parser is handed the empty token. */
  lemma EmptyTokenParsed(parseJwt: string -> Option<Claims>)
    ensures AuthMiddleware("Bearer ", parseJwt) ==
      match parseJwt("") case None => Respond(InvalidToken) case Some(c) => Next(c)
  {
    var h := "Bearer ";
    assert h[7..] == "";
    AuthMiddlewareSpec(h, parseJwt);
  }

  /** AdminOnly: the next handler runs iff the context's role is "ADMIN"; otherwise 403. */
  function AdminOnly(role: Option<string>): (o: Outcome<()>)
    ensures o.Next? <==> role == Some(RoleAdmin)
    ensures o.Respond? ==> o.response == AdminRequired
  {
    if role != Some(RoleAdmin) then Respond(AdminRequired) else Next(())
  }

  /** AuthMiddleware followed by AdminOnly. */
  function AdminRoute(header: string, parseJwt: string -> Option<Claims>): Outcome<()> {
    match AuthMiddleware(header, parseJwt)
    case Respond(r) => Respond(r)
    case Next(claims) => AdminOnly(Some(claims.role))
  }

  /** An admin route is reached exactly with a well-formed Bearer header whose token parses to
      claims with role "ADMIN". */
  lemma AdminRouteSpec(header: string, parseJwt: string -> Option<Claims>)
    ensures AdminRoute(header, parseJwt).Next? <==>
      IsBearerHeader(header) && parseJwt(header[7..]).Some? && parseJwt(header[7..]).value.role == RoleAdmin
  {
    AuthMiddlewareSpec(header, parseJwt);
  }
}
