// The rotating QR presence token of pages/paginaFichajeMovil.py: a window
// counter over the clock, an HMAC-SHA256 digest of the counter's decimal
// text cut to 12 base64url characters, the accepted tokens of the current
// window and its two neighbours, and the "FICHAJE:" payload check.
//
// HMAC-SHA256 is a parameter `mac` (key text, message text) -> 32 bytes;
// the secret and the period in hours are parameters too, and the clock is
// an integer number of seconds since the epoch.

module QrToken {
  import opened Text
  import opened Base64Url

  type Digest = s: seq<Byte> | |s| == 32 witness seq(32, i => 0)

  /** The prefix that marks the office's QR codes. */
  const QrPrefix: string := "FICHAJE:"

  /** Windows accepted on either side of the current one. */
  const AllowedSkew: int := 1

  /** Characters kept from the encoded digest. */
  const TokenLength: int := 12

  /** Python's `//` on integers: the floor of a / b. */
  function FloorDiv(a: int, b: int): (q: int)
    requires b != 0
    ensures b > 0 ==> q * b <= a < q * b + b
    ensures b < 0 ==> q * b >= a > q * b + b
  {
    if b > 0 then a / b else (-a) / (-b)
  }

  /** The floor is the only integer with that bracketing. */
  lemma FloorDivUnique(a: int, b: int, q: int)
    requires b > 0 && q * b <= a < q * b + b
    ensures FloorDiv(a, b) == q
  {
    var f := FloorDiv(a, b);
    if f < q {
      MulMonotone(f + 1, q, b);
    } else if f > q {
      MulMonotone(q + 1, f, b);
    }
  }

  lemma MulMonotone(x: int, y: int, b: int)
    requires x <= y && b > 0
    ensures x * b <= y * b
  {
    var d := y - x;
    assert y * b == x * b + d * b;
  }

  /** `int(at_ts // (QR_PERIOD_HOURS * 3600))`. */
  function WindowCounter(ts: int, periodHours: int): int
    requires periodHours != 0
  {
    FloorDiv(ts, periodHours * 3600)
  }

  /** `_token_for_counter`: the first 12 characters of the unpadded
      base64url encoding of HMAC(secret, str(counter)). */
  function TokenForCounter(mac: (string, string) -> Digest, secret: string, counter: int): (t: string)
    ensures |t| == TokenLength
    ensures forall i :: 0 <= i < |t| ==> IsUrlChar(t[i]) && t[i] != '='
  {
    var digest := mac(secret, IntToString(counter));
    B64UrlShape(digest);
    B64Url(digest)[..TokenLength]
  }

  /** `current_qr_token`. */
  function CurrentToken(mac: (string, string) -> Digest, secret: string, periodHours: int, ts: int): string
    requires periodHours != 0
  {
    TokenForCounter(mac, secret, WindowCounter(ts, periodHours))
  }

  /** The token of every window counter, as a function. */
  function TokenOf(mac: (string, string) -> Digest, secret: string): int -> string
  {
    (c: int) => TokenForCounter(mac, secret, c)
  }

  /** The images of the n consecutive counters from lo on. */
  function Window<T>(f: int -> T, lo: int, n: nat): (w: seq<T>)
    ensures |w| == n
  {
    seq(n, i requires 0 <= i < n => f(lo + i))
  }

  lemma WindowSnoc<T>(f: int -> T, lo: int, n: nat)
    ensures Window(f, lo, n + 1) == Window(f, lo, n) + [f(lo + n)]
  {
  }

  /** A value lies in a window exactly when some counter of the window
      maps to it. */
  lemma InWindowIff<T>(f: int -> T, lo: int, n: nat, x: T)
    ensures x in Window(f, lo, n) <==> exists c :: lo <= c < lo + n && x == f(c)
  {
    var w := Window(f, lo, n);
    if x in w {
      var i :| 0 <= i < n && w[i] == x;
      assert lo <= lo + i < lo + n && x == f(lo + i);
    }
    if exists c :: lo <= c < lo + n && x == f(c) {
      var c :| lo <= c < lo + n && x == f(c);
      assert w[c - lo] == x;
    }
  }

  /** The tokens `valid_qr_tokens` returns, oldest window first. */
  function AcceptedTokens(mac: (string, string) -> Digest, secret: string, periodHours: int, ts: int): seq<string>
    requires periodHours != 0
  {
    Window(TokenOf(mac, secret), WindowCounter(ts, periodHours) - AllowedSkew, 2 * AllowedSkew + 1)
  }

  /** `valid_qr_tokens`: one token per counter from counter - skew to
      counter + skew, appended in a loop. */
  method ValidQrTokens(mac: (string, string) -> Digest, secret: string, periodHours: int, ts: int)
    returns (tokens: seq<string>)
    requires periodHours != 0
    ensures tokens == AcceptedTokens(mac, secret, periodHours, ts)
  {
    var counter := WindowCounter(ts, periodHours);
    var tokenOf := TokenOf(mac, secret);
    tokens := [];
    for c := counter - AllowedSkew to counter + AllowedSkew + 1
      invariant tokens == Window(tokenOf, counter - AllowedSkew, c - (counter - AllowedSkew))
    {
      WindowSnoc(tokenOf, counter - AllowedSkew, c - (counter - AllowedSkew));
      tokens := tokens + [tokenOf(c)];
    }
  }

  /** `build_qr_payload`. */
  function BuildQrPayload(token: string): (p: string)
    ensures QrPrefix <= p && p[|QrPrefix|..] == token
  {
    QrPrefix + token
  }

  /** `is_qr_payload_valid`, checked against the clock reading `now`. */
  predicate IsQrPayloadValid(mac: (string, string) -> Digest, secret: string, periodHours: int, now: int, payload: string)
    requires periodHours != 0
  {
    if |payload| == 0 || !(QrPrefix <= payload) then false
    else Strip(payload[|QrPrefix|..]) in AcceptedTokens(mac, secret, periodHours, now)
  }

  /** The counter brackets the timestamp: it is the window ts falls in. */
  lemma WindowBounds(ts: int, periodHours: int)
    requires periodHours > 0
    ensures var c := WindowCounter(ts, periodHours);
      c * (periodHours * 3600) <= ts < (c + 1) * (periodHours * 3600)
  {
  }

  /** Two clock readings in the same window give the same token. */
  lemma SameWindowSameToken(mac: (string, string) -> Digest, secret: string, periodHours: int,
                            c: int, t1: int, t2: int)
    requires periodHours > 0
    requires c * (periodHours * 3600) <= t1 < (c + 1) * (periodHours * 3600)
    requires c * (periodHours * 3600) <= t2 < (c + 1) * (periodHours * 3600)
    ensures WindowCounter(t1, periodHours) == WindowCounter(t2, periodHours) == c
    ensures CurrentToken(mac, secret, periodHours, t1) == CurrentToken(mac, secret, periodHours, t2)
  {
    FloorDivUnique(t1, periodHours * 3600, c);
    FloorDivUnique(t2, periodHours * 3600, c);
  }

  /** A token is made of base64url characters, so stripping leaves it as is. */
  lemma TokenStripped(mac: (string, string) -> Digest, secret: string, counter: int)
    ensures Strip(TokenForCounter(mac, secret, counter)) == TokenForCounter(mac, secret, counter)
  {
    var t := TokenForCounter(mac, secret, counter);
    assert NoSpace(t) by {
      forall i | 0 <= i < |t| ensures !IsSpace(t[i]) {
        assert IsUrlChar(t[i]);
      }
    }
    StripNoSpace(t);
  }

  /** A token is accepted exactly when it is the token of the current
      window or of one of its neighbours. */
  lemma AcceptedIff(mac: (string, string) -> Digest, secret: string, periodHours: int, ts: int, tok: string)
    requires periodHours != 0
    ensures tok in AcceptedTokens(mac, secret, periodHours, ts) <==>
      exists c :: WindowCounter(ts, periodHours) - AllowedSkew <= c < WindowCounter(ts, periodHours) + AllowedSkew + 1 &&
        tok == TokenOf(mac, secret)(c)
  {
    InWindowIff(TokenOf(mac, secret), WindowCounter(ts, periodHours) - AllowedSkew, 2 * AllowedSkew + 1, tok);
  }

  /** `current_qr_token(t)` is among `valid_qr_tokens(t)`, in the middle. */
  lemma CurrentIsAccepted(mac: (string, string) -> Digest, secret: string, periodHours: int, ts: int)
    requires periodHours != 0
    ensures AcceptedTokens(mac, secret, periodHours, ts)[AllowedSkew] == CurrentToken(mac, secret, periodHours, ts)
    ensures CurrentToken(mac, secret, periodHours, ts) in AcceptedTokens(mac, secret, periodHours, ts)
  {
    var acc := AcceptedTokens(mac, secret, periodHours, ts);
    assert acc[AllowedSkew] == CurrentToken(mac, secret, periodHours, ts);
  }

  /** The payload check: it holds exactly when the payload starts with
      "FICHAJE:" and the rest, stripped, is the token of the current
      window or of a neighbouring one. */
  lemma PayloadValidIff(mac: (string, string) -> Digest, secret: string, periodHours: int, now: int, payload: string)
    requires periodHours != 0
    ensures IsQrPayloadValid(mac, secret, periodHours, now, payload) <==>
      QrPrefix <= payload &&
      exists c :: WindowCounter(now, periodHours) - AllowedSkew <= c < WindowCounter(now, periodHours) + AllowedSkew + 1 &&
        Strip(payload[|QrPrefix|..]) == TokenOf(mac, secret)(c)
  {
    if QrPrefix <= payload {
      AcceptedIff(mac, secret, periodHours, now, Strip(payload[|QrPrefix|..]));
    }
  }

  /** A QR issued in one window is still accepted in the next one (and a
      reader one window behind accepts it too). */
  lemma PayloadAcceptedNearby(mac: (string, string) -> Digest, secret: string, periodHours: int, issued: int, now: int)
    requires periodHours != 0
    requires -AllowedSkew <= WindowCounter(issued, periodHours) - WindowCounter(now, periodHours) <= AllowedSkew
    ensures IsQrPayloadValid(mac, secret, periodHours, now, BuildQrPayload(CurrentToken(mac, secret, periodHours, issued)))
  {
    var c := WindowCounter(issued, periodHours);
    var tok := TokenForCounter(mac, secret, c);
    TokenStripped(mac, secret, c);
    AcceptedIff(mac, secret, periodHours, now, tok);
    assert tok == TokenOf(mac, secret)(c);
  }

  /** Round trip: the payload built from the current token is valid when
      checked at the same instant. */
  lemma PayloadRoundTrip(mac: (string, string) -> Digest, secret: string, periodHours: int, ts: int)
    requires periodHours != 0
    ensures IsQrPayloadValid(mac, secret, periodHours, ts, BuildQrPayload(CurrentToken(mac, secret, periodHours, ts)))
  {
    TokenStripped(mac, secret, WindowCounter(ts, periodHours));
    CurrentIsAccepted(mac, secret, periodHours, ts);
  }

  /** Whitespace around the token is tolerated. */
  lemma PayloadPaddedRoundTrip(mac: (string, string) -> Digest, secret: string, periodHours: int, ts: int, pre: string, post: string)
    requires periodHours != 0
    requires forall i :: 0 <= i < |pre| ==> IsSpace(pre[i])
    requires forall i :: 0 <= i < |post| ==> IsSpace(post[i])
    ensures IsQrPayloadValid(mac, secret, periodHours, ts,
      BuildQrPayload(pre + CurrentToken(mac, secret, periodHours, ts) + post))
  {
    var tok := CurrentToken(mac, secret, periodHours, ts);
    assert IsUrlChar(tok[0]) && IsUrlChar(tok[|tok| - 1]);
    StripAround(pre, tok, post);
    assert BuildQrPayload(pre + tok + post)[|QrPrefix|..] == pre + tok + post;
    CurrentIsAccepted(mac, secret, periodHours, ts);
  }

  /** Stripping a token with no space at its ends, surrounded by spaces. */
  lemma StripAround(pre: string, tok: string, post: string)
    requires forall i :: 0 <= i < |pre| ==> IsSpace(pre[i])
    requires forall i :: 0 <= i < |post| ==> IsSpace(post[i])
    requires |tok| > 0 && !IsSpace(tok[0]) && !IsSpace(tok[|tok| - 1])
    ensures Strip(pre + tok + post) == tok
  {
    assert pre + tok + post == pre + (tok + post);
    StripLeftSpaces(pre, tok + post);
    StripRightSpaces(tok, post);
  }
}
