/** index.js: the decisions the single webhook handler makes about a
    request. The clock, the UUID generator, HMAC-SHA256 and the outbound
    call to the Conversions API are parameters, so every decision is a
    function of its inputs. */
module Webhook {
  import opened JsStrings
  import opened JsValues
  import Utf8

  /** Node's `req.headers`: lower-case header names to their values. */
  type Headers = map<string, string>

  /** `req.headers[name]`: the header's text, or `undefined`. */
  function Header(h: Headers, name: string): Value {
    if name in h then Str(h[name]) else Undefined
  }

  /** The parts of an incoming request the handler reads. `body` is what
      the raw-body middleware parsed (`undefined` unless the content type
      is JSON); `remoteAddress` is `req.socket?.remoteAddress` and `ip` is
      Express's `req.ip`. */
  datatype Request = Request(
    rawBody: string,
    body: Value,
    headers: Headers,
    remoteAddress: Option<string>,
    ip: Option<string>)

  datatype Response = Response(status: int, body: Value)

  // ---------------------------------------------------------------------
  // verifySignature

  /** `h[name] || ""`: a header's text, "" when it is absent. */
  function HeaderText(h: Headers, name: string): string {
    if name in h then h[name] else ""
  }

  /** `h["x-signature"] || h["x-signature-hmac"] || h["x-hub-signature-256"] || ""`. */
  function SignatureHeader(h: Headers): (r: Value)
    ensures r.Str?
  {
    Or(Or(Or(Header(h, "x-signature"), Header(h, "x-signature-hmac")),
          Header(h, "x-hub-signature-256")), Str(""))
  }

  /** The raw signature verifySignature starts from, trimmed: `.toString()`
      of a header string is the string itself. */
  function SignatureCandidate(h: Headers): string {
    Trim(ToJsString(SignatureHeader(h)).value)
  }

  /** `h[name] || rest` on a header. */
  lemma HeaderOr(h: Headers, name: string, rest: Value)
    ensures Or(Header(h, name), rest)
         == if HeaderText(h, name) != "" then Str(HeaderText(h, name)) else rest
  {
  }

  /** The three headers are tried in order and the first non-empty one is
      used; with none of them the raw signature is "". */
  lemma SignatureHeaderPrecedence(h: Headers)
    ensures var t1, t2, t3 := HeaderText(h, "x-signature"), HeaderText(h, "x-signature-hmac"),
                              HeaderText(h, "x-hub-signature-256");
            SignatureCandidate(h) == (if t1 != "" then Trim(t1) else if t2 != "" then Trim(t2)
                                      else if t3 != "" then Trim(t3) else "")
  {
    var t1, t2, t3 := HeaderText(h, "x-signature"), HeaderText(h, "x-signature-hmac"),
                      HeaderText(h, "x-hub-signature-256");
    HeaderOr(h, "x-signature", Header(h, "x-signature-hmac"));
    var first2 := Or(Header(h, "x-signature"), Header(h, "x-signature-hmac"));
    var raw := if t1 != "" then t1 else if t2 != "" then t2 else if t3 != "" then t3 else "";
    assert SignatureHeader(h) == Str(raw) by {
      HeaderOr(h, "x-signature-hmac", Header(h, "x-hub-signature-256"));
      HeaderOr(h, "x-hub-signature-256", Str(""));
    }
    assert Trim("") == "";
  }

  /** A non-empty x-signature is the raw signature, trimmed. */
  lemma FirstHeaderUsed(h: Headers)
    requires "x-signature" in h && h["x-signature"] != ""
    ensures SignatureCandidate(h) == Trim(h["x-signature"])
  {
    SignatureHeaderPrecedence(h);
  }

  /** `raw.includes("=") ? raw.split("=")[1] : raw`: never contains "=",
      and is all of `raw` when `raw` has none. */
  function ComparedSignature(raw: string): (got: string)
    ensures '=' !in got
    ensures '=' !in raw ==> got == raw
  {
    if '=' in raw then Split(raw, '=')[1] else raw
  }

  /** With an "=", the compared value is the text between the first "=" and
      the second one (or the end): "sha256=abc" gives "abc", "a=b=c" gives
      "b". */
  lemma ComparedSignatureSegment(raw: string)
    requires '=' in raw
    ensures var rest := raw[IndexOf(raw, '=') + 1..];
            ComparedSignature(raw) == if '=' in rest then rest[..IndexOf(rest, '=')] else rest
  {
    var rest := raw[IndexOf(raw, '=') + 1..];
    assert Split(raw, '=')[1] == Split(rest, '=')[0];
    if '=' in rest {
      FirstSeparator(rest, '=');
    }
  }

  /** crypto.timingSafeEqual: throws (None) when the buffers differ in
      length, otherwise says whether they hold the same bytes. */
  function TimingSafeEqual(a: seq<Utf8.Byte>, b: seq<Utf8.Byte>): (r: Option<bool>)
    ensures r.None? <==> |a| != |b|
    ensures r.Some? ==> (r.value <==> a == b)
  {
    if |a| != |b| then None else Some(a == b)
  }

  /** verifySignature. With no shared secret every request passes.
      Otherwise the compared value must be non-empty and equal, character
      for character, to the hex HMAC of the raw body; a thrown length
      mismatch counts as a failure. */
  function VerifySignature(rawBody: string, h: Headers, secret: string,
                           hmacHex: (string, string) -> string): (ok: bool)
    ensures secret == "" ==> ok
    ensures secret != "" ==>
              (ok <==> ComparedSignature(SignatureCandidate(h)) != ""
                       && ComparedSignature(SignatureCandidate(h)) == hmacHex(secret, rawBody))
  {
    if secret == "" then true
    else
      var expected := hmacHex(secret, rawBody);
      var got := ComparedSignature(SignatureCandidate(h));
      if got == "" then false
      else
        var eq := TimingSafeEqual(Utf8.Encode(expected), Utf8.Encode(got));
        assert Utf8.Encode(expected) == Utf8.Encode(got) ==> expected == got by {
          if Utf8.Encode(expected) == Utf8.Encode(got) {
            Utf8.EncodeInjective(expected, got);
          }
        }
        match eq
        case None => false
        case Some(same) => same
  }

  /** Hex digits of either case: what a digest header carries. */
  predicate IsHexText(d: string) {
    forall i :: 0 <= i < |d| ==> IsHexDigit(d[i])
  }

  /** Hex text needs no trimming and holds no "=". */
  lemma HexTextPlain(d: string)
    requires d != "" && IsHexText(d)
    ensures Trim(d) == d && '=' !in d
    ensures !IsJsWhitespace(d[|d| - 1])
  {
    assert !IsJsWhitespace(d[0]) && !IsJsWhitespace(d[|d| - 1]);
    TrimOfTrimmed(d);
  }

  /** A bare digest sent in x-signature is compared as it is. */
  lemma BareDigestCompared(h: Headers, d: string)
    requires d != "" && IsHexText(d)
    requires "x-signature" in h && h["x-signature"] == d
    ensures ComparedSignature(SignatureCandidate(h)) == d
  {
    FirstHeaderUsed(h);
    HexTextPlain(d);
  }

  /** "<algorithm>=<digest>" is compared as "<digest>". */
  lemma AlgorithmPrefixDropped(algorithm: string, d: string)
    requires '=' !in algorithm && '=' !in d
    ensures ComparedSignature(algorithm + "=" + d) == d
  {
    var s := algorithm + "=" + d;
    assert s[..|algorithm|] == algorithm;
    IndexOfUnique(s, '=', |algorithm|);
    assert s[|algorithm| + 1..] == d;
    ComparedSignatureSegment(s);
  }

  /** "<algorithm>=<digest>" needs no trimming. */
  lemma PrefixedDigestUntrimmed(algorithm: string, d: string)
    requires d != "" && IsHexText(d)
    requires algorithm == "" || !IsJsWhitespace(algorithm[0])
    ensures Trim(algorithm + "=" + d) == algorithm + "=" + d
  {
    var s := algorithm + "=" + d;
    HexTextPlain(d);
    assert !IsJsWhitespace(s[0]) by {
      if algorithm == "" { assert s[0] == '='; } else { assert s[0] == algorithm[0]; }
    }
    assert !IsJsWhitespace(s[|s| - 1]) by { assert s[|s| - 1] == d[|d| - 1]; }
    TrimOfTrimmed(s);
  }

  /** A digest sent as "<algorithm>=<digest>" in x-signature is compared
      without its algorithm prefix. */
  lemma PrefixedDigestCompared(h: Headers, algorithm: string, d: string)
    requires d != "" && IsHexText(d)
    requires '=' !in algorithm && (algorithm == "" || !IsJsWhitespace(algorithm[0]))
    requires "x-signature" in h && h["x-signature"] == algorithm + "=" + d
    ensures ComparedSignature(SignatureCandidate(h)) == d
  {
    FirstHeaderUsed(h);
    PrefixedDigestUntrimmed(algorithm, d);
    HexTextPlain(d);
    AlgorithmPrefixDropped(algorithm, d);
  }

  /** A request signed the way the bundled test scripts sign it,
      "sha256=" followed by the hex HMAC of the body, is accepted; so is the
      bare digest. */
  lemma CorrectSignatureAccepted(rawBody: string, h: Headers, secret: string,
                                 hmacHex: (string, string) -> string, algorithm: string)
    requires secret != ""
    requires hmacHex(secret, rawBody) != "" && IsHexText(hmacHex(secret, rawBody))
    requires '=' !in algorithm && (algorithm == "" || !IsJsWhitespace(algorithm[0]))
    requires "x-signature" in h
    requires h["x-signature"] == hmacHex(secret, rawBody)
          || h["x-signature"] == algorithm + "=" + hmacHex(secret, rawBody)
    ensures VerifySignature(rawBody, h, secret, hmacHex)
  {
    if h["x-signature"] == hmacHex(secret, rawBody) {
      BareDigestCompared(h, hmacHex(secret, rawBody));
    } else {
      PrefixedDigestCompared(h, algorithm, hmacHex(secret, rawBody));
    }
  }

  /** Whatever headers are sent, an accepted request carries the HMAC of
      exactly its own body: the same headers fail for any body whose HMAC
      differs. */
  lemma TamperedBodyRejected(rawBody: string, tampered: string, h: Headers, secret: string,
                             hmacHex: (string, string) -> string)
    requires secret != ""
    requires VerifySignature(rawBody, h, secret, hmacHex)
    requires hmacHex(secret, tampered) != hmacHex(secret, rawBody)
    ensures !VerifySignature(tampered, h, secret, hmacHex)
  {
  }

  /** The comparison is case-sensitive: upper-casing one hex letter of the
      correct (lower-case) digest makes the request fail. */
  lemma UpperCaseDigestRejected(rawBody: string, h: Headers, secret: string,
                                hmacHex: (string, string) -> string, k: nat)
    requires secret != ""
    requires IsHexText(hmacHex(secret, rawBody))
    requires k < |hmacHex(secret, rawBody)|
    requires 'a' <= hmacHex(secret, rawBody)[k] <= 'f'
    requires "x-signature" in h
    requires h["x-signature"] == hmacHex(secret, rawBody)[k := (hmacHex(secret, rawBody)[k] as int - 32) as char]
    ensures !VerifySignature(rawBody, h, secret, hmacHex)
  {
    var d := hmacHex(secret, rawBody);
    var u := h["x-signature"];
    assert IsHexText(u) by {
      forall i | 0 <= i < |u| ensures IsHexDigit(u[i]) {
        if i != k { assert u[i] == d[i]; }
      }
    }
    BareDigestCompared(h, u);
    assert u[k] != d[k];
  }

  /** Only the x-signature header is read when it is non-empty, whatever
      the other two hold. */
  lemma FirstSignatureHeaderWins(rawBody: string, h: Headers, other: Headers, secret: string,
                                 hmacHex: (string, string) -> string)
    requires "x-signature" in h && h["x-signature"] != ""
    requires "x-signature" in other && other["x-signature"] == h["x-signature"]
    ensures VerifySignature(rawBody, h, secret, hmacHex) == VerifySignature(rawBody, other, secret, hmacHex)
  {
    SignatureHeaderPrecedence(h);
    SignatureHeaderPrecedence(other);
  }

  // ---------------------------------------------------------------------
  // parseCookies

  /** `cookieHeader.split(";").map(s => s.trim())`. */
  function CookiePieces(header: string): seq<string> {
    var parts := Split(header, ';');
    seq(|parts|, i requires 0 <= i < |parts| => Trim(parts[i]))
  }

  /** `const [k, ...rest] = p.split("=")`: the cookie name is `k`. */
  function CookieName(p: string): string {
    Split(p, '=')[0]
  }

  /** ... and its value is `rest.join("=")`. */
  function CookieValue(p: string): string {
    Join(Split(p, '=')[1..], '=')
  }

  /** A piece is cut at its first "=": the name is what precedes it and the
      value all that follows it, further "=" included; a piece without "="
      is a name with the empty value. */
  lemma CookiePieceCutAtFirstEquals(p: string)
    ensures '=' in p ==>
              CookieName(p) == p[..IndexOf(p, '=')] && CookieValue(p) == p[IndexOf(p, '=') + 1..]
    ensures '=' !in p ==> CookieName(p) == p && CookieValue(p) == ""
  {
    if '=' in p {
      FirstSeparator(p, '=');
    }
  }

  /** The map the loop of parseCookies builds from `pieces`, one
      assignment per piece, in order. */
  function CookieJarOf(pieces: seq<string>): (jar: map<string, string>)
    ensures jar.Keys == CookieNames(pieces)
  {
    if pieces == [] then map[]
    else
      var init, last := pieces[..|pieces| - 1], pieces[|pieces| - 1];
      assert CookieNames(pieces) == CookieNames(init) + {CookieName(last)} by {
        assert pieces == init + [last];
      }
      CookieJarOf(init)[CookieName(last) := CookieValue(last)]
  }

  /** The names of the pieces. */
  function CookieNames(pieces: seq<string>): set<string> {
    set p | p in pieces :: CookieName(p)
  }

  /** parseCookies, as a value: the empty map for an empty header, and
      otherwise a map whose keys are the names of the header's pieces. */
  function CookieJar(header: string): (jar: map<string, string>)
    ensures header == "" ==> jar == map[]
    ensures header != "" ==> jar.Keys == CookieNames(CookiePieces(header))
  {
    if header == "" then map[] else CookieJarOf(CookiePieces(header))
  }

  /** A name is in the map iff some piece has that name, and it maps to
      the value of the LAST such piece: a later duplicate overwrites an
      earlier one. */
  lemma {:induction false} CookieJarLastWins(pieces: seq<string>, name: string)
    ensures name in CookieJarOf(pieces) <==> exists i :: 0 <= i < |pieces| && CookieName(pieces[i]) == name
    ensures name in CookieJarOf(pieces) ==>
              exists i :: 0 <= i < |pieces| && CookieName(pieces[i]) == name
                          && CookieJarOf(pieces)[name] == CookieValue(pieces[i])
                          && forall j :: i < j < |pieces| ==> CookieName(pieces[j]) != name
  {
    CookieJarHasName(pieces, name);
    if pieces != [] {
      var n := |pieces| - 1;
      var init := pieces[..n];
      if CookieName(pieces[n]) == name {
        assert CookieJarOf(pieces)[name] == CookieValue(pieces[n]);
      } else if name in CookieJarOf(init) {
        CookieJarLastWins(init, name);
        var i :| 0 <= i < |init| && CookieName(init[i]) == name
                 && CookieJarOf(init)[name] == CookieValue(init[i])
                 && forall j :: i < j < |init| ==> CookieName(init[j]) != name;
        LaterPieceOtherName(pieces, init, name, i);
      }
    }
  }

  /** An assignment to another name keeps the last piece named `name`
      the last one. */
  lemma LaterPieceOtherName(pieces: seq<string>, init: seq<string>, name: string, i: nat)
    requires pieces != [] && init == pieces[..|pieces| - 1]
    requires CookieName(pieces[|pieces| - 1]) != name
    requires i < |init|
    requires forall j :: i < j < |init| ==> CookieName(init[j]) != name
    ensures pieces[i] == init[i]
    ensures forall j :: i < j < |pieces| ==> CookieName(pieces[j]) != name
  {
    forall j | i < j < |pieces| ensures CookieName(pieces[j]) != name {
      if j < |init| { assert pieces[j] == init[j]; }
    }
  }

  /** The names in the map are the names of the pieces. */
  lemma CookieJarHasName(pieces: seq<string>, name: string)
    ensures name in CookieJarOf(pieces) <==> exists i :: 0 <= i < |pieces| && CookieName(pieces[i]) == name
  {
    if name in CookieJarOf(pieces) {
      var p :| p in pieces && CookieName(p) == name;
      var i :| 0 <= i < |pieces| && pieces[i] == p;
    }
  }

  /** One more piece is one more assignment. */
  lemma CookieJarOfSnoc(pieces: seq<string>, p: string)
    ensures CookieJarOf(pieces + [p]) == CookieJarOf(pieces)[CookieName(p) := CookieValue(p)]
  {
    assert (pieces + [p])[..|pieces|] == pieces;
  }

  /** parseCookies: split the header at ";", trim each piece, and assign
      every piece's value to its name in a fresh map. */
  method ParseCookies(cookieHeader: string) returns (out: map<string, string>)
    ensures out == CookieJar(cookieHeader)
  {
    out := map[];
    if cookieHeader == "" {
      return;
    }
    var pairs := CookiePieces(cookieHeader);
    for i := 0 to |pairs|
      invariant out == CookieJarOf(pairs[..i])
    {
      var parts := Split(pairs[i], '=');
      var k := parts[0];
      out := out[k := Join(parts[1..], '=')];
      CookieJarOfSnoc(pairs[..i], pairs[i]);
      assert pairs[..i + 1] == pairs[..i] + [pairs[i]];
    }
    assert pairs[..|pairs|] == pairs;
  }

  /** A header without ";" or whitespace margins is one piece. */
  lemma SinglePiece(p: string)
    requires p != [] && ';' !in p
    requires !IsJsWhitespace(p[0]) && !IsJsWhitespace(p[|p| - 1])
    ensures CookiePieces(p) == [p]
  {
    TrimOfTrimmed(p);
  }

  /** "name=value" is cut into `name` and `value`. */
  lemma NameValueCut(name: string, value: string)
    requires '=' !in name
    ensures CookieName(name + "=" + value) == name && CookieValue(name + "=" + value) == value
  {
    var p := name + "=" + value;
    assert p[..|name|] == name;
    IndexOfUnique(p, '=', |name|);
    assert p[|name| + 1..] == value;
    CookiePieceCutAtFirstEquals(p);
  }

  /** A header that is one piece holds one cookie. */
  lemma OnePieceJar(p: string)
    requires p != "" && CookiePieces(p) == [p]
    ensures CookieJar(p) == map[CookieName(p) := CookieValue(p)]
  {
    assert CookieJarOf([p]) == CookieJarOf([p][..0])[CookieName(p) := CookieValue(p)];
  }

  /** A header holding the single cookie "name=value" maps that name to
      that value, any "=" inside the value kept: "k=a=b" gives k := "a=b". */
  lemma SingleCookie(name: string, value: string)
    requires name != "" && '=' !in name && ';' !in name && ';' !in value
    requires !IsJsWhitespace(name[0])
    requires value == "" || !IsJsWhitespace(value[|value| - 1])
    ensures CookieJar(name + "=" + value) == map[name := value]
  {
    var p := name + "=" + value;
    assert !IsJsWhitespace(p[0]) by { assert p[0] == name[0]; }
    assert !IsJsWhitespace(p[|p| - 1]) by {
      if value == "" { assert p[|p| - 1] == '='; } else { assert p[|p| - 1] == value[|value| - 1]; }
    }
    SinglePiece(p);
    OnePieceJar(p);
    NameValueCut(name, value);
  }

  // ---------------------------------------------------------------------
  // extractFBPFBC

  /** `cookies[name]`: the cookie's value, or `undefined`. */
  function CookieField(jar: map<string, string>, name: string): (r: Value)
    ensures name in jar ==> r == Str(jar[name])
    ensures name !in jar ==> r == Undefined
  {
    if name in jar then Str(jar[name]) else Undefined
  }

  /** The named cookie of the request's `cookie` header, or `undefined`. */
  function RequestCookie(req: Request, name: string): Value {
    CookieField(CookieJar(HeaderText(req.headers, "cookie")), name)
  }

  /** The `_fbc` value synthesised from a click id,
      "fb.1.<seconds>.<String(fbclid)>", or None where String() throws. */
  function SynthesisedFbc(nowSec: nat, fbclid: Value): (r: Option<string>)
    ensures r.None? <==> StringConversionThrows(fbclid)
    ensures fbclid.Str? ==> r == Some("fb.1." + NatToString(nowSec) + "." + fbclid.s)
  {
    match ToJsString(fbclid)
    case None => None
    case Some(id) => Some("fb.1." + NatToString(nowSec) + "." + id)
  }

  /** The places fbp is looked for, in order: body, x-fbp, the _fbp cookie. */
  function FbpSources(req: Request): seq<Value> {
    [Get(req.body, "fbp"), Header(req.headers, "x-fbp"), RequestCookie(req, "_fbp")]
  }

  /** The places fbc is looked for before it is synthesised, in order:
      body, x-fbc, the _fbc cookie. */
  function FbcSources(req: Request): seq<Value> {
    [Get(req.body, "fbc"), Header(req.headers, "x-fbc"), RequestCookie(req, "_fbc")]
  }

  /** The pair extractFBPFBC returns, or None when it throws. Each
      identifier is the first truthy source; an fbc found nowhere is
      synthesised from a truthy fbclid, and otherwise it is the (falsy)
      header value. The call throws exactly when it has to synthesise fbc
      from an fbclid that String() cannot convert. */
  function ClickIds(req: Request, nowSec: nat): (ids: Option<(Value, Value)>)
    ensures ids.None? <==>
              && (forall i :: 0 <= i < 3 ==> !Truthy(FbcSources(req)[i]))
              && Truthy(Get(req.body, "fbclid")) && StringConversionThrows(Get(req.body, "fbclid"))
  {
    var fbp := FirstTruthy(FbpSources(req)).GetOr(Header(req.headers, "x-fbp"));
    var fbclid := Get(req.body, "fbclid");
    match FirstTruthy(FbcSources(req))
    case Some(fbc) => Some((fbp, fbc))
    case None =>
      if !Truthy(fbclid) then Some((fbp, Header(req.headers, "x-fbc")))
      else
        match SynthesisedFbc(nowSec, fbclid)
        case None => None
        case Some(fbc) => Some((fbp, Str(fbc)))
  }

  /** The search through three sources. */
  lemma FirstTruthyOfThree(a: Value, b: Value, c: Value)
    ensures FirstTruthy([a, b, c])
         == if Truthy(a) then Some(a) else if Truthy(b) then Some(b)
            else if Truthy(c) then Some(c) else None
  {
    assert [a, b, c] == [a] + ([b] + ([c] + []));
    FirstTruthyCons(a, [b] + ([c] + []));
    FirstTruthyCons(b, [c] + []);
    FirstTruthyCons(c, []);
  }

  /** fbp is the body's fbp, else x-fbp, else the _fbp cookie, else the
      falsy x-fbp value. */
  lemma FbpPrecedence(req: Request, nowSec: nat)
    ensures var ids := ClickIds(req, nowSec);
            var a, b, c := Get(req.body, "fbp"), Header(req.headers, "x-fbp"), RequestCookie(req, "_fbp");
            ids.Some? ==> ids.value.0 == if Truthy(a) then a else if Truthy(b) then b else if Truthy(c) then c else b
  {
    var a, b, c := Get(req.body, "fbp"), Header(req.headers, "x-fbp"), RequestCookie(req, "_fbp");
    FirstTruthyOfThree(a, b, c);
  }

  /** fbc is the body's fbc, else x-fbc, else the _fbc cookie; only when
      all three are falsy is it synthesised from a truthy fbclid, and that
      synthesis throws when String(fbclid) does. */
  lemma FbcPrecedence(req: Request, nowSec: nat)
    ensures var ids := ClickIds(req, nowSec);
            var a, b, c := Get(req.body, "fbc"), Header(req.headers, "x-fbc"), RequestCookie(req, "_fbc");
            var fbclid := Get(req.body, "fbclid");
            && (ids.None? <==> !Truthy(a) && !Truthy(b) && !Truthy(c) && Truthy(fbclid) && StringConversionThrows(fbclid))
            && (ids.Some? ==>
                  ids.value.1 == if Truthy(a) then a else if Truthy(b) then b else if Truthy(c) then c
                                 else if Truthy(fbclid) then Str(SynthesisedFbc(nowSec, fbclid).value) else b)
  {
    var a, b, c := Get(req.body, "fbc"), Header(req.headers, "x-fbc"), RequestCookie(req, "_fbc");
    FirstTruthyOfThree(a, b, c);
    assert FbcSources(req) == [a, b, c];
  }

  /** extractFBPFBC, step by step as the source reassigns `fbp` and `fbc`;
      `nowMs` is the value of Date.now() it reads. None: the template
      literal threw. */
  method ExtractFbpFbc(req: Request, nowMs: nat) returns (ids: Option<(Value, Value)>)
    ensures ids == ClickIds(req, nowMs / 1000)
  {
    FbpPrecedence(req, nowMs / 1000);
    FbcPrecedence(req, nowMs / 1000);

    var fbp := Or(Get(req.body, "fbp"), Header(req.headers, "x-fbp"));
    var fbc := Or(Get(req.body, "fbc"), Header(req.headers, "x-fbc"));

    var cookies := ParseCookies(HeaderText(req.headers, "cookie"));
    if !Truthy(fbp) && Truthy(CookieField(cookies, "_fbp")) {
      fbp := CookieField(cookies, "_fbp");
    }
    if !Truthy(fbc) && Truthy(CookieField(cookies, "_fbc")) {
      fbc := CookieField(cookies, "_fbc");
    }

    var fbclid := Get(req.body, "fbclid");
    if !Truthy(fbc) && Truthy(fbclid) {
      var id := ToJsString(fbclid);
      if id.None? {
        return None;
      }
      fbc := Str("fb.1." + NatToString(nowMs / 1000) + "." + id.value);
    }
    ids := Some((fbp, fbc));
  }

  /** Joining four pieces with "." puts a "." between each pair. */
  lemma JoinFour(a: string, b: string, c: string, d: string)
    ensures Join([a, b, c, d], '.') == a + "." + b + "." + c + "." + d
  {
    assert [c, d][1..] == [d];
    assert Join([c, d], '.') == c + "." + d;
    assert [b, c, d][1..] == [c, d];
    assert Join([b, c, d], '.') == b + "." + (c + "." + d);
    assert [a, b, c, d][1..] == [b, c, d];
    assert Join([a, b, c, d], '.') == a + "." + (b + "." + (c + "." + d));
  }

  /** A synthesised fbc splits at "." into "fb", "1", the clock second and
      the click id (when the click id has no "."), and the seconds field
      reads back as the clock second. */
  lemma SynthesisedFbcFields(nowSec: nat, fbclid: Value, id: string)
    requires ToJsString(fbclid) == Some(id) && '.' !in id
    ensures SynthesisedFbc(nowSec, fbclid).Some?
    ensures Split(SynthesisedFbc(nowSec, fbclid).value, '.') == ["fb", "1", NatToString(nowSec), id]
    ensures ParseNat(Split(SynthesisedFbc(nowSec, fbclid).value, '.')[2]) == nowSec
  {
    var ts := NatToString(nowSec);
    assert '.' !in ts by {
      forall i | 0 <= i < |ts| ensures ts[i] != '.' { assert IsAsciiDigit(ts[i]); }
    }
    JoinFour("fb", "1", ts, id);
    assert "fb" + "." + "1" + "." == "fb.1.";
    assert "fb" + "." + "1" + "." + ts + "." + id == SynthesisedFbc(nowSec, fbclid).value;
    JoinThenSplit(["fb", "1", ts, id], '.');
    NatToStringRoundTrip(nowSec);
  }

  // ---------------------------------------------------------------------
  // genEventId, client address and user agent

  /** genEventId: the body's event_id when truthy, else a fresh UUID. */
  function GenEventId(body: Value, uuid: string): (id: Value)
    ensures Truthy(Get(body, "event_id")) ==> id == Get(body, "event_id")
    ensures !Truthy(Get(body, "event_id")) ==> id == Str(uuid)
  {
    Or(Get(body, "event_id"), Str(uuid))
  }

  /** `req.headers["x-forwarded-for"]?.split(",")[0]?.trim()`: the first
      comma-separated entry, trimmed, or `undefined` without the header. */
  function ForwardedFirstHop(h: Headers): (r: Value)
    ensures r.Undefined? <==> "x-forwarded-for" !in h
    ensures r.Str? ==> ',' !in r.s && Trim(r.s) == r.s
  {
    var xff := Header(h, "x-forwarded-for");
    if xff.Str? then
      var first := Split(xff.s, ',')[0];
      TrimKeepsAbsent(first, ',');
      TrimOfTrimmed(Trim(first));
      Str(Trim(first))
    else Undefined
  }

  /** client_ip_address: the first x-forwarded-for entry, trimmed, else the
      socket's address, else `req.ip`, else `undefined`; never "". */
  function ClientIp(req: Request): (ip: Value)
    ensures ip.Undefined? || (ip.Str? && ip.s != "")
    ensures Truthy(ForwardedFirstHop(req.headers)) ==> ip == ForwardedFirstHop(req.headers)
    ensures !Truthy(ForwardedFirstHop(req.headers)) ==>
              ip == FirstTruthy([OptionalStr(req.remoteAddress), OptionalStr(req.ip)]).GetOr(Undefined)
  {
    var hop, socket, ip := ForwardedFirstHop(req.headers), OptionalStr(req.remoteAddress), OptionalStr(req.ip);
    assert FirstTruthy([socket, ip])
        == if Truthy(socket) then Some(socket) else if Truthy(ip) then Some(ip) else None by {
      FirstTruthyCons(socket, [ip]);
      FirstTruthyCons(ip, []);
      assert [ip] == [ip] + [];
    }
    Or(Or(Or(hop, socket), ip), Undefined)
  }

  /** The first hop of "a, b, c" is "a": entries after the first comma are
      ignored. */
  lemma ForwardedForFirstEntry(req: Request, first: string, rest: string)
    requires ',' !in first && Trim(first) != ""
    requires "x-forwarded-for" in req.headers && req.headers["x-forwarded-for"] == first + "," + rest
    ensures ClientIp(req) == Str(Trim(first))
  {
    var h := first + "," + rest;
    assert h[..|first|] == first;
    IndexOfUnique(h, ',', |first|);
  }

  /** client_user_agent: the user-agent header when non-empty, otherwise
      `undefined`. */
  function UserAgent(h: Headers): (r: Value)
    ensures r.Str? <==> "user-agent" in h && h["user-agent"] != ""
    ensures r.Str? ==> r.s == h["user-agent"]
    ensures !r.Str? ==> r == Undefined
  {
    Or(Header(h, "user-agent"), Undefined)
  }

  // ---------------------------------------------------------------------
  // GET /webhook

  /** The verification challenge: 200 with `hub.challenge` iff `hub.mode` is
      "subscribe" and `hub.verify_token` is a non-empty string equal to
      the configured token; 403 otherwise. */
  function Challenge(query: map<string, Value>, verifyToken: string): (resp: Response)
    ensures resp.status == 200 || resp.status == 403
    ensures resp.status == 200 <==>
              && "hub.mode" in query && query["hub.mode"] == Str("subscribe")
              && verifyToken != ""
              && "hub.verify_token" in query && query["hub.verify_token"] == Str(verifyToken)
    ensures resp.status == 200 ==> resp.body == Get(Obj(query), "hub.challenge")
  {
    var q := Obj(query);
    var mode := Get(q, "hub.mode");
    var token := Get(q, "hub.verify_token");
    var challenge := Get(q, "hub.challenge");
    if mode == Str("subscribe") && Truthy(token) && token == Str(verifyToken) then
      Response(200, challenge)
    else
      Response(403, Str("forbidden"))
  }

  // ---------------------------------------------------------------------
  // POST /webhook

  /** One entry of the batch sent to the Conversions API. */
  datatype Event = Event(
    eventName: Value,
    eventTime: Value,
    eventId: Value,
    actionSource: string,
    eventSourceUrl: Value,
    userData: map<string, Value>,
    customData: Value)

  datatype Payload = Payload(data: seq<Event>, partnerAgent: string)

  /** The user_data fields the handler derives from the request. */
  function DerivedUserData(req: Request, fbp: Value, fbc: Value): map<string, Value> {
    map["client_ip_address" := ClientIp(req),
        "client_user_agent" := UserAgent(req.headers),
        "fbp" := fbp,
        "fbc" := fbc]
  }

  /** The payload of POST /webhook, given the click ids extractFBPFBC
      returned: the body's fields with their destructuring defaults, the
      derived user_data overridden by the caller's own, and the fixed
      action source and partner agent. */
  function BuildPayload(req: Request, nowSec: nat, uuid: string, fbp: Value, fbc: Value): (p: Payload)
    ensures |p.data| == 1
    ensures p.partnerAgent == "midas-capi/1.0" && p.data[0].actionSource == "website"
  {
    var body := Or(req.body, Obj(map[]));
    var userData := Default(Get(body, "user_data"), Obj(map[]));
    Payload(
      [Event(
        Default(Get(body, "event_name"), Str("PageView")),
        Default(Get(body, "event_time"), Num(nowSec)),
        GenEventId(req.body, uuid),
        "website",
        Get(body, "event_source_url"),
        DerivedUserData(req, fbp, fbc) + Spread(userData),
        Default(Get(body, "custom_data"), Obj(map[])))],
      "midas-capi/1.0")
  }

  /** The defaults replace only missing fields: event_name "PageView",
      event_time the request's clock second, custom_data {}. A field sent
      as null (or 0, or "") is kept as sent. */
  lemma PayloadDefaults(req: Request, nowSec: nat, uuid: string, fbp: Value, fbc: Value)
    ensures var e := BuildPayload(req, nowSec, uuid, fbp, fbc).data[0];
            && e.eventName == (if Get(req.body, "event_name").Undefined? then Str("PageView") else Get(req.body, "event_name"))
            && e.eventTime == (if Get(req.body, "event_time").Undefined? then Num(nowSec) else Get(req.body, "event_time"))
            && e.customData == (if Get(req.body, "custom_data").Undefined? then Obj(map[]) else Get(req.body, "custom_data"))
            && e.eventSourceUrl == Get(req.body, "event_source_url")
            && e.eventId == (if Truthy(Get(req.body, "event_id")) then Get(req.body, "event_id") else Str(uuid))
  {
    assert Get(Or(req.body, Obj(map[])), "event_name") == Get(req.body, "event_name");
  }

  /** Keys in the caller's user_data override the derived
      client_ip_address, client_user_agent, fbp and fbc; derived keys the
      caller does not send are kept; no other key appears. */
  lemma CallerUserDataOverrides(req: Request, nowSec: nat, uuid: string, fbp: Value, fbc: Value)
    ensures var e := BuildPayload(req, nowSec, uuid, fbp, fbc).data[0];
            var caller := Spread(Get(req.body, "user_data"));
            var derived := DerivedUserData(req, fbp, fbc);
            && e.userData.Keys == derived.Keys + caller.Keys
            && (forall k :: k in caller ==> e.userData[k] == caller[k])
            && (forall k :: k in derived && k !in caller ==> e.userData[k] == derived[k])
  {
    assert Spread(Obj(map[])) == map[];
  }

  /** The configuration the handler reads from the environment; a missing
      variable is "". */
  datatype Config = Config(sharedSecret: string, verifyToken: string, pixelId: string, accessToken: string)

  /** The nondeterministic inputs of one POST: the Date.now() read for
      event_time, the Date.now() read inside extractFBPFBC, and the UUID
      genEventId draws. */
  datatype Clock = Clock(requestMs: nat, fbcMs: nat, uuid: string)

  /** The status and JSON body sendToMetaCAPI resolves to. */
  datatype CapiResult = CapiResult(status: int, data: Value)

  /** How the async handler settles: it answers, or the promise it returns
      rejects with the TypeError thrown while fbc is synthesised, which
      happens before the `try` around the API call and is therefore left
      to Express. */
  datatype Outcome = Answered(response: Response) | Rejected

  function ErrorBody(error: string): Value {
    Obj(map["ok" := Bool(false), "error" := Str(error)])
  }

  /** POST /webhook. `send` is sendToMetaCAPI: None when the call throws. */
  function HandlePost(req: Request, cfg: Config, clock: Clock,
                      hmacHex: (string, string) -> string,
                      send: Payload -> Option<CapiResult>): (out: Outcome)
    ensures (!VerifySignature(req.rawBody, req.headers, cfg.sharedSecret, hmacHex))
              ==> out == Answered(Response(401, ErrorBody("invalid signature")))
    ensures (VerifySignature(req.rawBody, req.headers, cfg.sharedSecret, hmacHex)
             && (cfg.pixelId == "" || cfg.accessToken == ""))
              ==> out == Answered(Response(500, ErrorBody("missing_pixel_or_token")))
    ensures out.Rejected? <==>
              && VerifySignature(req.rawBody, req.headers, cfg.sharedSecret, hmacHex)
              && cfg.pixelId != "" && cfg.accessToken != ""
              && ClickIds(req, clock.fbcMs / 1000).None?
    ensures out.Answered? && out.response.status == 200 ==>
              && VerifySignature(req.rawBody, req.headers, cfg.sharedSecret, hmacHex)
              && var ids := ClickIds(req, clock.fbcMs / 1000);
                 && ids.Some?
                 && send(BuildPayload(req, clock.requestMs / 1000, clock.uuid, ids.value.0, ids.value.1)).Some?
  {
    if !VerifySignature(req.rawBody, req.headers, cfg.sharedSecret, hmacHex) then
      Answered(Response(401, ErrorBody("invalid signature")))
    else if cfg.pixelId == "" || cfg.accessToken == "" then
      Answered(Response(500, ErrorBody("missing_pixel_or_token")))
    else
      var eventId := GenEventId(req.body, clock.uuid);
      match ClickIds(req, clock.fbcMs / 1000)
      case None => Rejected
      case Some(ids) =>
        var payload := BuildPayload(req, clock.requestMs / 1000, clock.uuid, ids.0, ids.1);
        match send(payload)
        case None => Answered(Response(500, ErrorBody("capi_request_failed")))
        case Some(result) =>
          Answered(Response(200, Obj(map["ok" := Bool(true), "event_id" := eventId,
                                         "capi_status" := Num(result.status),
                                         "capi_response" := result.data])))
  }

  /** A request that fails the signature check gets the same 401 whatever
      the API would have answered: nothing is sent for it. */
  lemma UnsignedRequestNeverSent(req: Request, cfg: Config, clock: Clock,
                                 hmacHex: (string, string) -> string,
                                 send: Payload -> Option<CapiResult>,
                                 otherSend: Payload -> Option<CapiResult>)
    requires !VerifySignature(req.rawBody, req.headers, cfg.sharedSecret, hmacHex)
    ensures HandlePost(req, cfg, clock, hmacHex, send) == HandlePost(req, cfg, clock, hmacHex, otherSend)
    ensures HandlePost(req, cfg, clock, hmacHex, send).Answered?
    ensures HandlePost(req, cfg, clock, hmacHex, send).response.status == 401
  {
  }

  /** A signed request under a complete configuration is rejected when
      extractFBPFBC throws; otherwise it is answered 200 with the event id
      of the payload it sent iff the API call returns, and 500
      "capi_request_failed" iff the call throws. */
  lemma SignedRequestForwarded(req: Request, cfg: Config, clock: Clock,
                               hmacHex: (string, string) -> string,
                               send: Payload -> Option<CapiResult>)
    requires VerifySignature(req.rawBody, req.headers, cfg.sharedSecret, hmacHex)
    requires cfg.pixelId != "" && cfg.accessToken != ""
    ensures var out := HandlePost(req, cfg, clock, hmacHex, send);
            var ids := ClickIds(req, clock.fbcMs / 1000);
            && (ids.None? ==> out == Rejected)
            && (ids.Some? ==>
                  var payload := BuildPayload(req, clock.requestMs / 1000, clock.uuid, ids.value.0, ids.value.1);
                  && out.Answered?
                  && (out.response.status == 200 <==> send(payload).Some?)
                  && (out.response.status == 200 ==>
                        && Get(out.response.body, "event_id") == payload.data[0].eventId
                        && Get(out.response.body, "capi_status") == Num(send(payload).value.status))
                  && (out.response.status != 200 ==>
                        out.response == Response(500, ErrorBody("capi_request_failed"))))
  {
  }

  /** A body whose fbclid is an object with its own "toString" entry, sent
      without any fbc, makes the handler throw instead of answering. */
  lemma FbclidToStringRejected(req: Request, cfg: Config, clock: Clock,
                               hmacHex: (string, string) -> string,
                               send: Payload -> Option<CapiResult>)
    requires VerifySignature(req.rawBody, req.headers, cfg.sharedSecret, hmacHex)
    requires cfg.pixelId != "" && cfg.accessToken != ""
    requires req.body == Obj(map["fbclid" := Obj(map["toString" := Num(1)])])
    requires "x-fbc" !in req.headers && "cookie" !in req.headers
    ensures HandlePost(req, cfg, clock, hmacHex, send) == Rejected
  {
    assert RequestCookie(req, "_fbc") == Undefined;
    assert StringConversionThrows(Get(req.body, "fbclid"));
  }
}
