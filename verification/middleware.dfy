/** `middleware.AuthGuard`: the gate in front of the item routes. It reads the
    `Authorization` header, cuts the token out of it around the word "Bearer",
    has the token verified and either answers 400 itself or passes the request
    on with the caller's id in its context. */
module Middleware {
  import opened Errors
  import opened Strings
  import opened Helper

  const Scheme := "Bearer"

  /** The three results of `lib.VerifyToken`: whether the token is valid, its
      subject, and the error. Verification itself (signature, parsing, the
      clock) is not modelled; it is the `verify` parameter below. */
  datatype Verdict = Verdict(isValid: bool, sub: int, err: Option<Error>)

  /** Either the guard answered the request itself and the wrapped handler was
      never called, or it called the handler once with the given context. */
  datatype GuardResult = Rejected(response: Response) | Forwarded(ctx: map<string, int>)

  /** Occurrences of "Bearer" can never overlap one another. */
  lemma SchemeOverlapFree()
    ensures OverlapFree(Scheme)
  {
    forall k | 0 < k < |Scheme| ensures Scheme[k..] != Scheme[..|Scheme| - k] {
      assert Scheme[k..][0] == Scheme[k] != 'B';
    }
  }

  /** The token in a header: the text after "Bearer", trimmed, when splitting
      on "Bearer" gives exactly two pieces; nothing otherwise. */
  function BearerToken(header: string): (token: Option<string>)
    ensures token.Some? <==> ExactlyOnce(header, Scheme)
    ensures forall i :: OccursAt(header, Scheme, i) && token.Some? ==>
      token.value == TrimSpace(header[i + |Scheme|..])
  {
    var pieces := Split(header, Scheme);
    SchemeOverlapFree();
    TwoPieces(header, Scheme);
    assert forall i :: OccursAt(header, Scheme, i) && ExactlyOnce(header, Scheme) ==>
      pieces == [header[..i], header[i + |Scheme|..]] by {
      forall i | OccursAt(header, Scheme, i) && ExactlyOnce(header, Scheme)
        ensures pieces == [header[..i], header[i + |Scheme|..]]
      {
        var w :| OccursAt(header, Scheme, w) && forall j :: OccursAt(header, Scheme, j) ==> j == w;
        PiecesAroundSole(header, Scheme, i);
      }
    }
    if |pieces| != 2 then None else Some(TrimSpace(pieces[1]))
  }

  /** What the guard does with the verifier's answer, in the Go code's order:
      unknown claims first, then expiry, then plain invalidity. */
  function Decide(v: Verdict, ctx: map<string, int>): (g: GuardResult)
    ensures Is(v.err, UnknownClaims) ==> g == Rejected(Reply(StatusBadRequest, "Unknown token claims"))
    ensures !Is(v.err, UnknownClaims) && Is(v.err, TokenExpired) ==>
      g == Rejected(Reply(StatusBadRequest, "Authorization token is expired"))
    ensures g.Forwarded? <==> v.isValid && !Is(v.err, UnknownClaims) && !Is(v.err, TokenExpired)
    ensures g.Rejected? && !Is(v.err, UnknownClaims) && !Is(v.err, TokenExpired) ==>
      g == Rejected(Reply(StatusBadRequest, "Invalid token"))
    ensures g.Forwarded? ==> g.ctx == ctx[UserIdKey := v.sub]
    ensures g.Rejected? ==> g.response.status == StatusBadRequest
  {
    if Is(v.err, UnknownClaims) then Rejected(Reply(StatusBadRequest, "Unknown token claims"))
    else if Is(v.err, TokenExpired) then Rejected(Reply(StatusBadRequest, "Authorization token is expired"))
    else if !v.isValid then Rejected(Reply(StatusBadRequest, "Invalid token"))
    else Forwarded(ctx[UserIdKey := v.sub])
  }

  /** The guard, for a request with `header` as its Authorization header and
      `ctx` as its context; `verify` is the token verifier. */
  function AuthGuard(header: string, ctx: map<string, int>, verify: string -> Verdict): (g: GuardResult)
    ensures header == "" ==> g == Rejected(Reply(StatusBadRequest, "You need to be logged in to access this"))
    ensures header != "" && !ExactlyOnce(header, Scheme) ==>
      g == Rejected(Reply(StatusBadRequest, "Bearer token not in proper format"))
    ensures header != "" && ExactlyOnce(header, Scheme) ==>
      g == Decide(verify(BearerToken(header).value), ctx)
    ensures g.Rejected? ==> g.response.status == StatusBadRequest
  {
    if header == "" then Rejected(Reply(StatusBadRequest, "You need to be logged in to access this"))
    else
      var token := BearerToken(header);
      assert token.Some? <==> ExactlyOnce(header, Scheme);
      if token.None? then Rejected(Reply(StatusBadRequest, "Bearer token not in proper format"))
      else Decide(verify(token.value), ctx)
  }

  /** The wrapped handler runs only with a verified subject: it is reached
      exactly when the header holds "Bearer" once and the verifier accepts the
      trimmed text after it, and the context then binds "userId" to the
      token's subject and keeps every other entry. */
  lemma ForwardedOnlyWhenVerified(header: string, i: int, ctx: map<string, int>, verify: string -> Verdict)
    requires OccursAt(header, Scheme, i)
    ensures var v := verify(TrimSpace(header[i + |Scheme|..]));
      AuthGuard(header, ctx, verify).Forwarded? <==>
        ExactlyOnce(header, Scheme) && v.isValid && !Is(v.err, UnknownClaims) && !Is(v.err, TokenExpired)
    ensures var g := AuthGuard(header, ctx, verify);
      g.Forwarded? ==>
        && g.ctx[UserIdKey] == verify(TrimSpace(header[i + |Scheme|..])).sub
        && forall k :: k in ctx && k != UserIdKey ==> k in g.ctx && g.ctx[k] == ctx[k]
  {
  }

  /** "Bearer" need not begin the header: whatever precedes it is ignored. */
  lemma PrefixIgnored(prefix: string, token: string, ctx: map<string, int>, verify: string -> Verdict)
    requires ExactlyOnce(prefix + Scheme + token, Scheme)
    ensures AuthGuard(prefix + Scheme + token, ctx, verify) == Decide(verify(TrimSpace(token)), ctx)
  {
    var h := prefix + Scheme + token;
    assert h[|prefix|..|prefix| + |Scheme|] == Scheme;
    assert h[|prefix| + |Scheme|..] == token;
    assert OccursAt(h, Scheme, |prefix|);
    var t := BearerToken(h);
    assert t.Some? && t.value == TrimSpace(token);
  }
}
