/** src/utils/hash.js: normalisation of e-mail and phone values and the
    field-by-field choice between passing a value through and hashing it.
    SHA-256 is the parameter `sha256Hex`, a function nothing is assumed of
    unless a lemma says so. */
module Hash {
  import opened JsStrings
  import opened JsValues

  /** normalizeEmail: "" for a falsy or non-string value, otherwise the
      trimmed, lower-cased string. */
  function NormalizeEmail(email: Value): (r: string)
    ensures !email.Str? ==> r == ""
    ensures r == [] || (!IsJsWhitespace(r[0]) && !IsJsWhitespace(r[|r| - 1]))
    ensures forall i :: 0 <= i < |r| ==> !IsAsciiUpper(r[i])
  {
    if !Truthy(email) || !email.Str? then ""
    else
      var t := Trim(email.s);
      ToLower(t)
  }

  /** Normalising an already normalised e-mail changes nothing. */
  lemma NormalizeEmailIdempotent(email: Value)
    ensures NormalizeEmail(Str(NormalizeEmail(email))) == NormalizeEmail(email)
  {
    var r := NormalizeEmail(email);
    if r != "" {
      calc {
        NormalizeEmail(Str(r));
        { NormalizeEmailOfString(r); }
        ToLower(Trim(r));
        { TrimOfTrimmed(r); }
        ToLower(r);
        { ToLowerIdempotent(Trim(email.s)); }
        r;
      }
    }
  }

  /** Surrounding whitespace and ASCII letter case do not matter: an e-mail
      padded with whitespace normalises like any string that differs from
      it only in letter case. */
  lemma NormalizeEmailOfString(x: string)
    ensures NormalizeEmail(Str(x)) == ToLower(Trim(x))
  {
    if x == "" {
      assert Trim(x) == "";
    }
  }

  lemma NormalizeEmailInsensitive(pre: string, s: string, post: string, t: string)
    requires AllWhitespace(pre) && AllWhitespace(post)
    requires ToLower(s) == ToLower(t)
    ensures NormalizeEmail(Str(pre + s + post)) == NormalizeEmail(Str(t))
  {
    calc {
      NormalizeEmail(Str(pre + s + post));
      { NormalizeEmailOfString(pre + s + post); }
      ToLower(Trim(pre + s + post));
      { TrimPadding(pre, s, post); }
      ToLower(Trim(s));
      { TrimLowerCommute(s); }
      Trim(ToLower(s));
      Trim(ToLower(t));
      { TrimLowerCommute(t); }
      ToLower(Trim(t));
      { NormalizeEmailOfString(t); }
      NormalizeEmail(Str(t));
    }
  }

  /** `s.replace(/\D+/g, "")`: `s` with every non-digit removed. */
  function DigitsOnly(s: string): (r: string)
    ensures |r| <= |s|
    ensures forall i :: 0 <= i < |r| ==> IsAsciiDigit(r[i])
  {
    if s == [] then []
    else (if IsAsciiDigit(s[0]) then [s[0]] else []) + DigitsOnly(s[1..])
  }

  /** DigitsOnly keeps the digits of each part, in order: it distributes
      over concatenation, so the result is the input's digits in their
      original order. */
  lemma {:induction false} DigitsOnlyConcat(a: string, b: string)
    ensures DigitsOnly(a + b) == DigitsOnly(a) + DigitsOnly(b)
  {
    if a == [] {
      assert a + b == b;
    } else {
      assert (a + b)[1..] == a[1..] + b;
      DigitsOnlyConcat(a[1..], b);
    }
  }

  /** A string of digits is kept whole. */
  lemma {:induction false} DigitsOnlyOfDigits(s: string)
    requires forall i :: 0 <= i < |s| ==> IsAsciiDigit(s[i])
    ensures DigitsOnly(s) == s
  {
    if s != [] {
      DigitsOnlyOfDigits(s[1..]);
    }
  }

  /** normalizePhoneE164ish: "" for a falsy or non-string value, otherwise
      the digits of the string. */
  function NormalizePhone(phone: Value): (r: string)
    ensures !phone.Str? ==> r == ""
    ensures phone.Str? ==> r == DigitsOnly(phone.s)
    ensures forall i :: 0 <= i < |r| ==> IsAsciiDigit(r[i])
  {
    if !Truthy(phone) || !phone.Str? then "" else DigitsOnly(phone.s)
  }

  /** Normalising an already normalised phone number changes nothing. */
  lemma NormalizePhoneIdempotent(phone: Value)
    ensures NormalizePhone(Str(NormalizePhone(phone))) == NormalizePhone(phone)
  {
    DigitsOnlyOfDigits(NormalizePhone(phone));
  }

  function AllHex(s: string): (b: bool)
    ensures b <==> forall i :: 0 <= i < |s| ==> IsHexDigit(s[i])
  {
    if s == [] then true
    else IsHexDigit(s[0]) && AllHex(s[1..])
  }

  /** isHex64: a string matching /^[0-9a-fA-F]{64}$/, the form of a value
      that was hashed upstream. */
  function IsHex64(v: Value): (b: bool)
    ensures b ==> v.Str? && Truthy(v)
  {
    v.Str? && |v.s| == 64 && AllHex(v.s)
  }

  /** isHex64 accepts exactly the strings of 64 characters from [0-9a-fA-F]. */
  lemma IsHex64Exactly(v: Value)
    ensures IsHex64(v) <==> v.Str? && |v.s| == 64 && forall i :: 0 <= i < 64 ==> IsHexDigit(v.s[i])
  {
  }

  /** `userDataIn || {}`. */
  function Source(userDataIn: Value): Value {
    Or(userDataIn, Obj(map[]))
  }

  /** The value hashUserData stores under `em`, if any: nothing iff both
      `em` and `email` are falsy; a 64-hex `em` itself; otherwise a digest. */
  function EmEntry(src: Value, sha256Hex: string -> string): (r: Option<Value>)
    ensures r.None? <==> !Truthy(Get(src, "em")) && !Truthy(Get(src, "email"))
    ensures IsHex64(Get(src, "em")) ==> r == Some(Get(src, "em"))
    ensures r.Some? && !IsHex64(Get(src, "em")) ==> exists x :: r.value == Str(sha256Hex(x))
  {
    var em := Get(src, "em");
    var email := Get(src, "email");
    if IsHex64(em) then Some(em)
    else if Truthy(em) then Some(Str(sha256Hex(NormalizeEmail(em))))
    else if Truthy(email) then Some(Str(sha256Hex(NormalizeEmail(email))))
    else None
  }

  /** The value hashUserData stores under `ph`, if any: nothing iff both
      `ph` and `phone` are falsy; a 64-hex `ph` itself; otherwise a digest. */
  function PhEntry(src: Value, sha256Hex: string -> string): (r: Option<Value>)
    ensures r.None? <==> !Truthy(Get(src, "ph")) && !Truthy(Get(src, "phone"))
    ensures IsHex64(Get(src, "ph")) ==> r == Some(Get(src, "ph"))
    ensures r.Some? && !IsHex64(Get(src, "ph")) ==> exists x :: r.value == Str(sha256Hex(x))
  {
    var ph := Get(src, "ph");
    var phone := Get(src, "phone");
    if IsHex64(ph) then Some(ph)
    else if Truthy(ph) then Some(Str(sha256Hex(NormalizePhone(ph))))
    else if Truthy(phone) then Some(Str(sha256Hex(NormalizePhone(phone))))
    else None
  }

  function WithEntry(m: map<string, Value>, key: string, e: Option<Value>): map<string, Value> {
    if e.Some? then m[key := e.value] else m
  }

  /** The object hashUserData returns. Its keys are among em, ph and
      external_id; `em` is present exactly when `em` or `email` is truthy,
      `ph` exactly when `ph` or `phone` is truthy, and `external_id` is
      copied verbatim when truthy. */
  function HashedUserData(userDataIn: Value, sha256Hex: string -> string): (out: map<string, Value>)
    ensures out.Keys <= {"em", "ph", "external_id"}
    ensures "em" in out <==> Truthy(Get(Source(userDataIn), "em")) || Truthy(Get(Source(userDataIn), "email"))
    ensures "ph" in out <==> Truthy(Get(Source(userDataIn), "ph")) || Truthy(Get(Source(userDataIn), "phone"))
    ensures "external_id" in out <==> Truthy(Get(Source(userDataIn), "external_id"))
    ensures "external_id" in out ==> out["external_id"] == Get(userDataIn, "external_id")
    ensures !Truthy(userDataIn) ==> out == map[]
  {
    var src := Source(userDataIn);
    var ext := Get(src, "external_id");
    var out := WithEntry(map[], "em", EmEntry(src, sha256Hex));
    var out := WithEntry(out, "ph", PhEntry(src, sha256Hex));
    WithEntry(out, "external_id", if Truthy(ext) then Some(ext) else None)
  }

  /** hashUserData, as the source writes it: fill an empty object field by
      field through conditional assignments. */
  method HashUserData(userDataIn: Value, sha256Hex: string -> string) returns (out: map<string, Value>)
    ensures out == HashedUserData(userDataIn, sha256Hex)
  {
    out := map[];
    var src := if Truthy(userDataIn) then userDataIn else Obj(map[]);

    var em := Get(src, "em");
    if IsHex64(em) {
      out := out["em" := em];
    } else if Truthy(em) {
      out := out["em" := Str(sha256Hex(NormalizeEmail(em)))];
    } else if Truthy(Get(src, "email")) {
      out := out["em" := Str(sha256Hex(NormalizeEmail(Get(src, "email"))))];
    }

    var ph := Get(src, "ph");
    if IsHex64(ph) {
      out := out["ph" := ph];
    } else if Truthy(ph) {
      out := out["ph" := Str(sha256Hex(NormalizePhone(ph)))];
    } else if Truthy(Get(src, "phone")) {
      out := out["ph" := Str(sha256Hex(NormalizePhone(Get(src, "phone"))))];
    }

    if Truthy(Get(src, "external_id")) {
      out := out["external_id" := Get(src, "external_id")];
    }
  }

  /** Reading a field through `userDataIn || {}` reads the field of
      `userDataIn`: a falsy value has no fields. */
  lemma SourceFields(userDataIn: Value, key: string)
    ensures Get(Source(userDataIn), key) == Get(userDataIn, key)
  {
  }

  /** The entries of the output are those EmEntry and PhEntry choose. */
  lemma HashedEntries(userDataIn: Value, sha256Hex: string -> string)
    ensures var out, src := HashedUserData(userDataIn, sha256Hex), Source(userDataIn);
            && (EmEntry(src, sha256Hex).Some? ==> "em" in out && out["em"] == EmEntry(src, sha256Hex).value)
            && (PhEntry(src, sha256Hex).Some? ==> "ph" in out && out["ph"] == PhEntry(src, sha256Hex).value)
  {
  }

  /** A 64-hex `em` or `ph` is passed through unchanged, whatever its letter
      case and whatever `email` or `phone` hold. */
  lemma HexPassesThrough(userDataIn: Value, sha256Hex: string -> string)
    ensures var out := HashedUserData(userDataIn, sha256Hex);
            && (IsHex64(Get(userDataIn, "em")) ==> out["em"] == Get(userDataIn, "em"))
            && (IsHex64(Get(userDataIn, "ph")) ==> out["ph"] == Get(userDataIn, "ph"))
  {
    HashedEntries(userDataIn, sha256Hex);
    SourceFields(userDataIn, "em");
    SourceFields(userDataIn, "ph");
  }

  /** `em` takes precedence over `email`: `email` is read only when `em`
      is falsy, and a non-hex value is normalised before it is hashed. */
  lemma EmPrecedence(userDataIn: Value, sha256Hex: string -> string)
    ensures var em, email := Get(userDataIn, "em"), Get(userDataIn, "email");
            var out := HashedUserData(userDataIn, sha256Hex);
            && (Truthy(em) && !IsHex64(em) ==> out["em"] == Str(sha256Hex(NormalizeEmail(em))))
            && (!Truthy(em) && Truthy(email) ==> out["em"] == Str(sha256Hex(NormalizeEmail(email))))
  {
    HashedEntries(userDataIn, sha256Hex);
    SourceFields(userDataIn, "em");
    SourceFields(userDataIn, "email");
  }

  /** `ph` takes precedence over `phone`: `phone` is read only when `ph`
      is falsy, and a non-hex value is reduced to its digits before it is
      hashed. */
  lemma PhPrecedence(userDataIn: Value, sha256Hex: string -> string)
    ensures var ph, phone := Get(userDataIn, "ph"), Get(userDataIn, "phone");
            var out := HashedUserData(userDataIn, sha256Hex);
            && (Truthy(ph) && !IsHex64(ph) ==> out["ph"] == Str(sha256Hex(NormalizePhone(ph))))
            && (!Truthy(ph) && Truthy(phone) ==> out["ph"] == Str(sha256Hex(NormalizePhone(phone))))
  {
    HashedEntries(userDataIn, sha256Hex);
    SourceFields(userDataIn, "ph");
    SourceFields(userDataIn, "phone");
  }

  /** Two `em` values that differ only in surrounding whitespace and letter
      case produce the same `em` hash. */
  lemma EmailHashIgnoresCaseAndPadding(pre: string, s: string, post: string, t: string,
                                       sha256Hex: string -> string)
    requires AllWhitespace(pre) && AllWhitespace(post) && ToLower(s) == ToLower(t)
    requires t != "" && !IsHex64(Str(pre + s + post)) && !IsHex64(Str(t))
    ensures var a := HashedUserData(Obj(map["em" := Str(pre + s + post)]), sha256Hex);
            var b := HashedUserData(Obj(map["em" := Str(t)]), sha256Hex);
            "em" in a && "em" in b && a["em"] == b["em"]
  {
    assert |s| == |t|;
    assert pre + s + post != "";
    NormalizeEmailInsensitive(pre, s, post, t);
    EmPrecedence(Obj(map["em" := Str(pre + s + post)]), sha256Hex);
    EmPrecedence(Obj(map["em" := Str(t)]), sha256Hex);
  }

  lemma LowerCaseExample()
    ensures ToLower("Foo@Bar.COM") == "foo@bar.com"
  {
  }

  /** "Foo@Bar.COM " and "foo@bar.com" give the same `em`. */
  lemma EmailExample(sha256Hex: string -> string)
    ensures var x := HashedUserData(Obj(map["em" := Str("Foo@Bar.COM ")]), sha256Hex);
            var y := HashedUserData(Obj(map["em" := Str("foo@bar.com")]), sha256Hex);
            "em" in x && "em" in y && x["em"] == y["em"]
  {
    var s := "Foo@Bar.COM";
    assert "" + s + " " == "Foo@Bar.COM ";
    assert AllWhitespace(" ");
    LowerCaseExample();
    ToLowerIdempotent(s);
    EmailHashIgnoresCaseAndPadding("", s, " ", "foo@bar.com", sha256Hex);
  }

  /** Two `ph` values with the same digits in the same order produce the
      same `ph` hash, whatever punctuation surrounds them. */
  lemma PhoneHashIgnoresFormatting(a: string, b: string, sha256Hex: string -> string)
    requires a != "" && b != "" && !IsHex64(Str(a)) && !IsHex64(Str(b))
    requires DigitsOnly(a) == DigitsOnly(b)
    ensures var x := HashedUserData(Obj(map["ph" := Str(a)]), sha256Hex);
            var y := HashedUserData(Obj(map["ph" := Str(b)]), sha256Hex);
            "ph" in x && "ph" in y && x["ph"] == y["ph"]
  {
    PhPrecedence(Obj(map["ph" := Str(a)]), sha256Hex);
    PhPrecedence(Obj(map["ph" := Str(b)]), sha256Hex);
  }

  lemma AreaCodeDigits()
    ensures DigitsOnly("(11) ") == "11"
  {
  }

  lemma SubscriberDigits()
    ensures DigitsOnly("99999-") == "99999"
    ensures DigitsOnly("9999") == "9999"
  {
  }

  lemma PhoneDigitsExample()
    ensures DigitsOnly("(11) 99999-9999") == "11999999999"
  {
    var a, b, c := "(11) ", "99999-", "9999";
    AreaCodeDigits();
    SubscriberDigits();
    assert "(11) 99999-9999" == a + (b + c);
    DigitsOnlyConcat(b, c);
    DigitsOnlyConcat(a, b + c);
    assert "11" + ("99999" + "9999") == "11999999999";
  }

  /** "(11) 99999-9999" and "11999999999" give the same `ph`. */
  lemma PhoneExample(sha256Hex: string -> string)
    ensures var x := HashedUserData(Obj(map["ph" := Str("(11) 99999-9999")]), sha256Hex);
            var y := HashedUserData(Obj(map["ph" := Str("11999999999")]), sha256Hex);
            "ph" in x && "ph" in y && x["ph"] == y["ph"]
  {
    PhoneDigitsExample();
    DigitsOnlyOfDigits("11999999999");
    PhoneHashIgnoresFormatting("(11) 99999-9999", "11999999999", sha256Hex);
  }

  /** When SHA-256 yields 64 hex characters, every `em` and `ph` emitted is
      64-hex: no raw e-mail or phone number leaves hashUserData. */
  lemma OnlyDigestsEmitted(userDataIn: Value, sha256Hex: string -> string)
    requires forall x :: IsHex64(Str(sha256Hex(x)))
    ensures var out := HashedUserData(userDataIn, sha256Hex);
            ("em" in out ==> IsHex64(out["em"])) && ("ph" in out ==> IsHex64(out["ph"]))
  {
    HashedEntries(userDataIn, sha256Hex);
  }

  /** A string without digits has no digits to keep. */
  lemma {:induction false} DigitsOnlyOfNoDigits(s: string)
    requires forall i :: 0 <= i < |s| ==> !IsAsciiDigit(s[i])
    ensures DigitsOnly(s) == ""
  {
    if s != [] {
      DigitsOnlyOfNoDigits(s[1..]);
    }
  }

  /** A truthy `em` made only of whitespace is not dropped: it is
      normalised to "" and the hash of the empty string is emitted. */
  lemma BlankEmailStillHashed(e: string, sha256Hex: string -> string)
    requires e != "" && AllWhitespace(e)
    ensures HashedUserData(Obj(map["em" := Str(e)]), sha256Hex)["em"] == Str(sha256Hex(""))
  {
    assert !IsHexDigit(e[0]);
    TrimEmptyIffBlank(e);
    NormalizeEmailOfString(e);
    EmPrecedence(Obj(map["em" := Str(e)]), sha256Hex);
  }

  /** Likewise a truthy, non-hex `ph` without digits ("n/a") yields the
      hash of the empty string. */
  lemma DigitlessPhoneStillHashed(p: string, sha256Hex: string -> string)
    requires p != "" && !IsHex64(Str(p))
    requires forall i :: 0 <= i < |p| ==> !IsAsciiDigit(p[i])
    ensures HashedUserData(Obj(map["ph" := Str(p)]), sha256Hex)["ph"] == Str(sha256Hex(""))
  {
    DigitsOnlyOfNoDigits(p);
    PhPrecedence(Obj(map["ph" := Str(p)]), sha256Hex);
  }
}
